/** The texts a release index is made of: tags, digests and reasons. */
module ReleaseTags {
  import opened Wrappers

  predicate IsDigit(c: char) {
    '0' <= c <= '9'
  }

  predicate IsSuffixChar(c: char) {
    IsDigit(c) || 'A' <= c <= 'Z' || 'a' <= c <= 'z' || c == '.' || c == '-'
  }

  predicate IsNumber(s: string) {
    s != "" && forall i | 0 <= i < |s| :: IsDigit(s[i])
  }

  function NumberOf(s: string): nat
    requires IsNumber(s)
  {
    (if |s| == 1 then 0 else 10 * NumberOf(s[..|s| - 1])) + (s[|s| - 1] as int - '0' as int)
  }

  /** `s.split(c)`. */
  function Split(s: string, c: char): (r: seq<string>)
    ensures r != []
  {
    if s == "" then [""]
    else
      var rest := Split(s[1..], c);
      if s[0] == c then [""] + rest else [[s[0]] + rest[0]] + rest[1..]
  }

  datatype Version = Version(major: nat, minor: nat, patch: nat)

  /** `/^v(\d+)\.(\d+)\.(\d+)$/u`, with the three numbers it captures. */
  function VersionOf(tag: string): Option<Version> {
    if tag == "" || tag[0] != 'v' then None
    else
      var parts := Split(tag[1..], '.');
      if |parts| == 3 && IsNumber(parts[0]) && IsNumber(parts[1]) && IsNumber(parts[2])
      then Some(Version(NumberOf(parts[0]), NumberOf(parts[1]), NumberOf(parts[2])))
      else None
  }

  /** A version in front of the hyphen at `i`, and suffix characters behind it. */
  predicate SuffixAt(s: string, i: nat) {
    i < |s| && s[i] == '-' && VersionOf(s[..i]).Some? && i + 1 < |s| && forall k | i < k < |s| :: IsSuffixChar(s[k])
  }

  /** `/^v\d+\.\d+\.\d+(?:-[0-9A-Za-z.-]+)?$/u`: a version, and a suffix behind the first hyphen. */
  predicate IsTag(s: string) {
    VersionOf(s).Some? || exists i | 0 <= i < |s| :: SuffixAt(s, i)
  }

  /** A lower-case SHA-256 digest. */
  predicate IsSha(s: string) {
    |s| == 64 && forall i | 0 <= i < |s| :: IsDigit(s[i]) || 'a' <= s[i] <= 'f'
  }

  /** `n` digits in base 16, in lower case. */
  predicate LowerHex(s: string, n: nat) {
    |s| == n && forall c | c in s :: c in "0123456789abcdef"
  }

  lemma HexDigits(c: char)
    ensures IsDigit(c) || 'a' <= c <= 'f' <==> c in "0123456789abcdef"
  {
  }

  lemma ShaExactly(s: string)
    ensures IsSha(s) <==> LowerHex(s, 64)
  {
    forall i | 0 <= i < |s| ensures s[i] in s && (IsDigit(s[i]) || 'a' <= s[i] <= 'f' <==> s[i] in "0123456789abcdef") {
      HexDigits(s[i]);
    }
  }

  /** White space of `String.prototype.trim`. */
  predicate IsWhite(c: char) {
    || c in " \t\n\r" || c as int in {0x0B, 0x0C, 0xA0, 0x1680, 0x2028, 0x2029, 0x202F, 0x205F, 0x3000, 0xFEFF}
    || 0x2000 <= c as int <= 0x200A
  }

  function TrimStart(s: string): string {
    if s != "" && IsWhite(s[0]) then TrimStart(s[1..]) else s
  }

  function TrimEnd(s: string): string {
    if s != "" && IsWhite(s[|s| - 1]) then TrimEnd(s[..|s| - 1]) else s
  }

  function Trim(s: string): string {
    TrimEnd(TrimStart(s))
  }

  /** `compareTags(left, right) <= 0`. */
  predicate VersionLeq(a: Version, b: Version) {
    if a.major != b.major then a.major < b.major
    else if a.minor != b.minor then a.minor < b.minor
    else a.patch <= b.patch
  }
}
