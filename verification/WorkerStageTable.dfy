/** The worker stage names of this release (tools/generated-worker-stage-policy.ts). */
module WorkerStageTable {
  import opened WorkerStages

  const EXCEPTIONS: seq<string> := [
    "arithmeticerror", "assertionerror", "attributeerror", "connectionerror",
    "engineruntimeunavailableerror", "eoferror", "filenotfounderror", "importerror", "indexerror",
    "keyerror", "memoryerror", "modulenotfounderror", "nameerror", "notexisterror", "notimplementederror",
    "ocrexecutionevidenceerror", "ocrinferencecleanuperror", "oserror", "overflowerror",
    "paddleresultnormalizationerror", "permissionerror", "runtimeerror", "timeouterror", "typeerror",
    "unknown", "unknownexecutionprovidererror", "valueerror", "zerodivisionerror"
  ]

  const SPEECH_EXCEPTIONS: seq<string> := [
    "arithmeticerror", "assertionerror", "attributeerror", "connectionerror",
    "engineruntimeunavailableerror", "eoferror", "filenotfounderror", "importerror", "indexerror",
    "keyerror", "memoryerror", "modulenotfounderror", "nameerror", "notexisterror", "notimplementederror",
    "ocrexecutionevidenceerror", "ocrinferencecleanuperror", "oserror", "overflowerror", "permissionerror",
    "runtimeerror", "timeouterror", "typeerror", "unknown", "unknownexecutionprovidererror", "valueerror",
    "zerodivisionerror"
  ]

  const LOAD_FAILURES: seq<string> := [
    "dependency-missing", "symbol-missing", "bad-image", "initialization-failed", "resource-exhausted",
    "blocked", "side-by-side", "unknown"
  ]

  const LOAD_OWNERS: seq<string> := [
    "onnxruntime", "directml", "opencv", "numpy", "pandas", "shapely", "pyclipper", "pillow",
    "pydantic-core", "rpds", "tokenizers", "chardet", "charset-normalizer", "aiohttp", "multidict", "yarl",
    "frozenlist", "propcache", "vc-runtime", "python-runtime", "paddlex", "paddleocr", "unknown"
  ]

  const OS_WINERROR_UNKNOWN: Stage := Compound("os-failed", Compound("winerror", "unknown"))

  // Names that stand for a whole family; a stage may fall back to one of them.
  const OCR_PROBE_MODULES_MISSING_UNKNOWN: Stage :=
    Compound("ocr-probe", Compound("modules", Compound("missing", "unknown")))
  const OCR_PROBE_ASSETS_MISSING_UNKNOWN: Stage := Compound("ocr-probe", Compound("assets-missing", "unknown"))
  const OCR_PROBE_PROVIDERS_UNKNOWN: Stage := Compound("ocr-probe", Compound("providers", "unknown"))
  const OCR_PROVIDER_EVIDENCE_UNKNOWN: Stage := Compound("ocr-provider", Compound("evidence", "unknown"))
  const OCR_PIPELINE_CREATE_FAILED_UNKNOWN: Stage := Compound("ocr-pipeline", Compound("create-failed", "unknown"))
  const OCR_PREDICT_FAILED_UNKNOWN: Stage := Compound("ocr-predict", "failed-unknown")
  const OCR_NORMALIZE_FAILED_UNKNOWN: Stage := Compound("ocr-normalize", "failed-unknown")
  const OCR_PROVIDER_EVIDENCE_FAILED_UNKNOWN: Stage :=
    Compound("ocr-provider", Compound("evidence", "failed-unknown"))
  const PYTHON_IMPORT_ONNXRUNTIME_FAILED_UNKNOWN: Stage :=
    Compound("python-import", Compound("onnxruntime", "failed-unknown"))
  const PYTHON_IMPORT_PADDLEOCR_FAILED_UNKNOWN: Stage :=
    Compound("python-import", Compound("paddleocr", "failed-unknown"))
  const PYTHON_IMPORT_ENGINE_ADAPTERS_OS_FAILED_WINERROR_UNKNOWN: Stage :=
    Compound("python-import", Compound("engine-adapters", OS_WINERROR_UNKNOWN))
  const PYTHON_IMPORT_WORKER_CONTRACTS_OS_FAILED_WINERROR_UNKNOWN: Stage :=
    Compound("python-import", Compound("worker", Compound("contracts", OS_WINERROR_UNKNOWN)))
  const PYTHON_IMPORT_WORKER_SERVER_OS_FAILED_WINERROR_UNKNOWN: Stage :=
    Compound("python-import", Compound("worker-server", OS_WINERROR_UNKNOWN))
  const SPEECH_MODEL_LOAD_CPU_FAILED_UNKNOWN: Stage :=
    Compound("speech-model", Compound("load-cpu", "failed-unknown"))
  const SPEECH_MODEL_LOAD_CUDA_FAILED_UNKNOWN: Stage :=
    Compound("speech-model", Compound("load-cuda", "failed-unknown"))
  const MARKER: Stage := Compound("worker-stage", Compound("sequence", "truncated"))

  const SENTINELS: set<string> := {
    OCR_PROBE_MODULES_MISSING_UNKNOWN,
    OCR_PROBE_ASSETS_MISSING_UNKNOWN,
    OCR_PROBE_PROVIDERS_UNKNOWN,
    OCR_PROVIDER_EVIDENCE_UNKNOWN,
    OCR_PIPELINE_CREATE_FAILED_UNKNOWN,
    OCR_PREDICT_FAILED_UNKNOWN,
    OCR_NORMALIZE_FAILED_UNKNOWN,
    OCR_PROVIDER_EVIDENCE_FAILED_UNKNOWN,
    PYTHON_IMPORT_ONNXRUNTIME_FAILED_UNKNOWN,
    PYTHON_IMPORT_PADDLEOCR_FAILED_UNKNOWN,
    PYTHON_IMPORT_ENGINE_ADAPTERS_OS_FAILED_WINERROR_UNKNOWN,
    PYTHON_IMPORT_WORKER_CONTRACTS_OS_FAILED_WINERROR_UNKNOWN,
    PYTHON_IMPORT_WORKER_SERVER_OS_FAILED_WINERROR_UNKNOWN,
    SPEECH_MODEL_LOAD_CPU_FAILED_UNKNOWN,
    SPEECH_MODEL_LOAD_CUDA_FAILED_UNKNOWN,
    MARKER
  }

  const ORDINARY: set<string> := {
    "diarization-assets-probe-complete", "diarization-assets-probe-start", "diarization-audio-decode-complete",
    "diarization-audio-decode-start", "diarization-device-cpu", "diarization-device-cuda",
    "diarization-gpu-fallback", "diarization-inference-complete", "diarization-inference-start",
    "diarization-model-load-complete", "diarization-model-load-start", "diarization-output-empty",
    "ocr-dml-device-id-mismatch", "ocr-dml-device-id-unobservable", "ocr-execution-evidence-prepare",
    "ocr-native-map-after", "ocr-native-map-before", "ocr-output-empty", "ocr-paddle-factory",
    "ocr-pdf-render-complete", "ocr-pdf-render-start", "ocr-pipeline-create-complete",
    "ocr-pipeline-create-start", "ocr-predict-complete", "ocr-predict-start", "ocr-probe-assets-ready",
    "ocr-probe-complete", "ocr-probe-modules-ready", "ocr-probe-modules-start", "ocr-probe-providers-error",
    "ocr-probe-start", "ocr-provider-evidence-start", "python-import-av-complete", "python-import-av-start",
    "python-import-capture-runtime-complete", "python-import-capture-runtime-failed",
    "python-import-capture-runtime-start", "python-import-engine-adapters-complete",
    "python-import-engine-adapters-dependency-failed", "python-import-engine-adapters-failed",
    "python-import-engine-adapters-module-missing", "python-import-engine-adapters-os-failed",
    "python-import-engine-adapters-start", "python-import-librosa-complete", "python-import-librosa-start",
    "python-import-numpy-complete", "python-import-numpy-start", "python-import-onnxruntime-complete",
    "python-import-onnxruntime-start", "python-import-paddleocr-complete", "python-import-paddleocr-start",
    "python-import-pdfium-complete", "python-import-pdfium-start", "python-import-pillow-complete",
    "python-import-pillow-start", "python-import-torch-complete", "python-import-torch-start",
    "python-import-transformers-complete", "python-import-transformers-start",
    "python-import-worker-contracts-complete", "python-import-worker-contracts-dependency-failed",
    "python-import-worker-contracts-failed", "python-import-worker-contracts-module-missing",
    "python-import-worker-contracts-os-failed", "python-import-worker-contracts-start",
    "python-import-worker-server-complete", "python-import-worker-server-dependency-failed",
    "python-import-worker-server-failed", "python-import-worker-server-module-missing",
    "python-import-worker-server-os-failed", "python-import-worker-server-start",
    "speech-assets-probe-complete", "speech-assets-probe-start", "speech-device-probe-complete",
    "speech-device-probe-start", "speech-gpu-fallback", "speech-model-load-cpu-complete",
    "speech-model-load-cpu-fallback-float32", "speech-model-load-cpu-reused", "speech-model-load-cpu-start",
    "speech-model-load-cuda-complete", "speech-model-load-cuda-reused", "speech-model-load-cuda-start",
    "speech-output-empty", "speech-output-empty-window", "speech-transcription-call-complete",
    "speech-transcription-call-start", "speech-transcription-complete", "speech-transcription-iteration-start",
    "worker-entry-start", "worker-process-entry-missing", "worker-process-exit-before-response",
    "worker-process-exit-nonzero", "worker-process-no-response", "worker-process-response-error",
    "worker-process-termination", "worker-process-timeout"
  }

  const EXACT: set<string> := SENTINELS + ORDINARY

  const FAMILIES: seq<seq<Piece>> := [
    [Fixed("ocr-probe-modules-missing-"), Digits(3)],
    [Fixed("ocr-probe-assets-missing-"), Digits(4)],
    [Fixed("ocr-probe-providers-"), Digits(6), Fixed("-cpu-"), OneOf(["yes", "no"]), Fixed("-dml-"),
     OneOf(["yes", "no"])],
    [Fixed("ocr-provider-evidence-dml-"), Digits(6), Fixed("-cpu-"), Digits(6)],
    [Fixed("ocr-"), OneOf(["pipeline-create", "predict", "normalize", "provider-evidence"]), Fixed("-failed-"),
     OneOf(EXCEPTIONS)],
    [Fixed("python-import-"), OneOf(["onnxruntime", "paddleocr"]), Fixed("-failed-"), OneOf(EXCEPTIONS)],
    [Fixed("python-import-"), OneOf(["onnxruntime", "paddleocr"]), Fixed("-failed-"), OneOf(EXCEPTIONS),
     Fixed("-"), OneOf(["missing-module", "native-load", "cannot-import-symbol", "partial-init", "other"]),
     Fixed("-"), OneOf(["onnxruntime", "paddleocr", "paddlex", "unknown"])],
    [Fixed("python-import-"), OneOf(["onnxruntime", "paddleocr"]), Fixed("-failed-"), OneOf(EXCEPTIONS),
     Fixed("-native-load-"), OneOf(["onnxruntime", "paddleocr", "paddlex", "unknown"]), Fixed("-"),
     OneOf(LOAD_FAILURES), Fixed("-"), OneOf(LOAD_OWNERS)],
    [Fixed("python-import-"), OneOf(["engine-adapters", "worker-contracts", "worker-server"]),
     Fixed("-os-failed-winerror-"), Digits(5)],
    [Fixed("speech-model-load-"), OneOf(["cpu", "cuda"]), Fixed("-failed-"), OneOf(SPEECH_EXCEPTIONS)],
    [Fixed("worker-process-"),
     OneOf(["timeout", "exit-before-response", "no-response", "response-error", "exit-nonzero"]),
     Fixed("-bootloader")]
  ]

  /** The last two stand for a pattern; a name never ends in a hyphen, so something always follows the prefix. */
  const FALLBACKS: seq<Fallback> := [
    Fallback("ocr-probe-modules-missing-", OCR_PROBE_MODULES_MISSING_UNKNOWN),
    Fallback("ocr-probe-assets-missing-", OCR_PROBE_ASSETS_MISSING_UNKNOWN),
    Fallback("ocr-probe-providers-", OCR_PROBE_PROVIDERS_UNKNOWN),
    Fallback("ocr-provider-evidence-dml-", OCR_PROVIDER_EVIDENCE_UNKNOWN),
    Fallback("ocr-pipeline-create-failed-", OCR_PIPELINE_CREATE_FAILED_UNKNOWN),
    Fallback("ocr-predict-failed-", OCR_PREDICT_FAILED_UNKNOWN),
    Fallback("ocr-normalize-failed-", OCR_NORMALIZE_FAILED_UNKNOWN),
    Fallback("ocr-provider-evidence-failed-", OCR_PROVIDER_EVIDENCE_FAILED_UNKNOWN),
    Fallback("python-import-onnxruntime-failed-", PYTHON_IMPORT_ONNXRUNTIME_FAILED_UNKNOWN),
    Fallback("python-import-paddleocr-failed-", PYTHON_IMPORT_PADDLEOCR_FAILED_UNKNOWN),
    Fallback("python-import-engine-adapters-os-failed-winerror-", PYTHON_IMPORT_ENGINE_ADAPTERS_OS_FAILED_WINERROR_UNKNOWN),
    Fallback("python-import-worker-contracts-os-failed-winerror-", PYTHON_IMPORT_WORKER_CONTRACTS_OS_FAILED_WINERROR_UNKNOWN),
    Fallback("python-import-worker-server-os-failed-winerror-", PYTHON_IMPORT_WORKER_SERVER_OS_FAILED_WINERROR_UNKNOWN),
    Fallback("speech-model-load-cpu-failed-", SPEECH_MODEL_LOAD_CPU_FAILED_UNKNOWN),
    Fallback("speech-model-load-cuda-failed-", SPEECH_MODEL_LOAD_CUDA_FAILED_UNKNOWN)
  ]

  const CRITICAL: set<string> := {
    "ocr-native-map-before", "ocr-paddle-factory", "ocr-native-map-after", "ocr-execution-evidence-prepare",
    "ocr-dml-device-id-unobservable", "ocr-dml-device-id-mismatch"
  }

  const POLICY := Policy(EXACT, FAMILIES, FALLBACKS, CRITICAL, MARKER)

  lemma FallbacksAreExact()
    ensures forall f | f in FALLBACKS :: f.sentinel in SENTINELS
  {
    forall k | 0 <= k < |FALLBACKS| ensures FALLBACKS[k].sentinel in SENTINELS {}
  }

  /** Every replacement name is an exact stage, so sanitizing with this table is idempotent. */
  lemma TableIsSound()
    ensures Sound(POLICY)
  {
    FallbacksAreExact();
  }
}
