/**
  The application-wide error type of the Synaptic backend (src-tauri/src/error.rs):
  twelve variants, each carrying one payload string, the stable machine code sent to
  the frontend, the human-readable message, and the conversions from I/O and JSON errors.
*/
module Errors {

  datatype SynapticError =
    | ConfigNotFound(detail: string)
    | ConfigReadError(detail: string)
    | ConfigWriteError(detail: string)
    | ConfigParseError(detail: string)
    | ServerNotFound(detail: string)
    | ServerAlreadyExists(detail: string)
    | BackupError(detail: string)
    | InspectorError(detail: string)
    | RegistryError(detail: string)
    | RuntimeNotFound(detail: string)
    | IoError(detail: string)
    | ProcessError(detail: string)

  /** `SynapticResult<T>`: every fallible operation returns a value or one error. */
  datatype Result<T> = Ok(value: T) | Err(error: SynapticError)

  /** Rust's `?` on a result: pass an error on, or continue with the value. */
  function AndThen<T, U>(r: Result<T>, f: T -> Result<U>): (u: Result<U>)
    ensures r.Err? ==> u == Err(r.error)
    ensures r.Ok? ==> u == f(r.value)
  {
    match r
    case Err(e) => Err(e)
    case Ok(v) => f(v)
  }

  /** The shape `ErrorResponse { code, message }` serialised to the frontend. */
  datatype ErrorResponse = ErrorResponse(code: string, message: string)

  /** Position of the variant in the declaration, 0 to 11 (the variant alone, payload ignored). */
  function Kind(e: SynapticError): (k: nat)
    ensures k < 12
  {
    match e
    case ConfigNotFound(_) => 0
    case ConfigReadError(_) => 1
    case ConfigWriteError(_) => 2
    case ConfigParseError(_) => 3
    case ServerNotFound(_) => 4
    case ServerAlreadyExists(_) => 5
    case BackupError(_) => 6
    case InspectorError(_) => 7
    case RegistryError(_) => 8
    case RuntimeNotFound(_) => 9
    case IoError(_) => 10
    case ProcessError(_) => 11
  }

  /** The code chosen by `From<SynapticError> for ErrorResponse`. */
  function Code(e: SynapticError): (c: string)
    ensures 8 <= |c| <= 21
  {
    match e
    case ConfigNotFound(_) => "CONFIG_NOT_FOUND"
    case ConfigReadError(_) => "CONFIG_READ_ERROR"
    case ConfigWriteError(_) => "CONFIG_WRITE_ERROR"
    case ConfigParseError(_) => "CONFIG_PARSE_ERROR"
    case ServerNotFound(_) => "SERVER_NOT_FOUND"
    case ServerAlreadyExists(_) => "SERVER_ALREADY_EXISTS"
    case BackupError(_) => "BACKUP_ERROR"
    case InspectorError(_) => "INSPECTOR_ERROR"
    case RegistryError(_) => "REGISTRY_ERROR"
    case RuntimeNotFound(_) => "RUNTIME_NOT_FOUND"
    case IoError(_) => "IO_ERROR"
    case ProcessError(_) => "PROCESS_ERROR"
  }

  /** The fixed text of each variant's `#[error("...: {0}")]` format, before the payload. */
  function Prefix(e: SynapticError): (p: string)
    ensures 10 <= |p| <= 31
  {
    match e
    case ConfigNotFound(_) => "Configuration file not found: "
    case ConfigReadError(_) => "Failed to read configuration: "
    case ConfigWriteError(_) => "Failed to write configuration: "
    case ConfigParseError(_) => "Failed to parse configuration: "
    case ServerNotFound(_) => "Server not found: "
    case ServerAlreadyExists(_) => "Server already exists: "
    case BackupError(_) => "Backup operation failed: "
    case InspectorError(_) => "Inspector error: "
    case RegistryError(_) => "Registry error: "
    case RuntimeNotFound(_) => "Runtime not found: "
    case IoError(_) => "IO error: "
    case ProcessError(_) => "Process error: "
  }

  /** `err.to_string()`: the variant's prefix followed by its payload. */
  function Message(e: SynapticError): (m: string)
    ensures |m| == |Prefix(e)| + |e.detail|
    ensures m[..|Prefix(e)|] == Prefix(e) && m[|Prefix(e)|..] == e.detail
  {
    Prefix(e) + e.detail
  }

  /** `From<SynapticError> for ErrorResponse`. */
  function ToResponse(e: SynapticError): (r: ErrorResponse)
    ensures r.code == Code(e) && r.message == Message(e)
  {
    ErrorResponse(Code(e), Message(e))
  }

  /** `clone_as_error`: a variant-by-variant copy. */
  function CloneAsError(e: SynapticError): (c: SynapticError)
    ensures Kind(c) == Kind(e) && c.detail == e.detail
  {
    match e
    case ConfigNotFound(s) => ConfigNotFound(s)
    case ConfigReadError(s) => ConfigReadError(s)
    case ConfigWriteError(s) => ConfigWriteError(s)
    case ConfigParseError(s) => ConfigParseError(s)
    case ServerNotFound(s) => ServerNotFound(s)
    case ServerAlreadyExists(s) => ServerAlreadyExists(s)
    case BackupError(s) => BackupError(s)
    case InspectorError(s) => InspectorError(s)
    case RegistryError(s) => RegistryError(s)
    case RuntimeNotFound(s) => RuntimeNotFound(s)
    case IoError(s) => IoError(s)
    case ProcessError(s) => ProcessError(s)
  }

  /** `impl Serialize for SynapticError`: the response built from the clone. */
  function Serialize(e: SynapticError): (r: ErrorResponse)
    ensures r == ToResponse(e)
  {
    ToResponse(CloneAsError(e))
  }

  /** `From<std::io::Error>`: the I/O error's text becomes an `IoError`. */
  function FromIoError(text: string): (e: SynapticError)
    ensures Code(e) == "IO_ERROR" && Message(e) == "IO error: " + text
  {
    IoError(text)
  }

  /** `From<serde_json::Error>`: a JSON error is reported as a configuration parse error. */
  function FromJsonError(text: string): (e: SynapticError)
    ensures Code(e) == "CONFIG_PARSE_ERROR" && Message(e) == "Failed to parse configuration: " + text
  {
    ConfigParseError(text)
  }

  /** Two errors with the same variant and payload are the same error. */
  lemma KindAndDetailDetermine(a: SynapticError, b: SynapticError)
    requires Kind(a) == Kind(b) && a.detail == b.detail
    ensures a == b
  {
  }

  /** The code mapping is total and injective on variants: the twelve codes are pairwise distinct. */
  lemma CodeIdentifiesVariant(a: SynapticError, b: SynapticError)
    ensures Code(a) == Code(b) <==> Kind(a) == Kind(b)
  {
    if Kind(a) != Kind(b) {
      CodesDiffer(a, b);
    }
  }

  lemma CodesDiffer(a: SynapticError, b: SynapticError)
    requires Kind(a) != Kind(b)
    ensures Code(a) != Code(b)
  {
    // The length, the first character and the eighth character together tell the codes apart.
    var ca, cb := Code(a), Code(b);
    if |ca| == |cb| && ca[0] == cb[0] {
      assert ca[7] != cb[7];
    }
  }

  /** No variant's message prefix is a prefix of another variant's one. */
  lemma PrefixesIncomparable(a: SynapticError, b: SynapticError) returns (i: nat)
    requires Kind(a) != Kind(b)
    ensures i < |Prefix(a)| && i < |Prefix(b)| && Prefix(a)[i] != Prefix(b)[i]
  {
    // Every two prefixes already differ at index 0, 1, 7 or 10.
    if Kind(a) < 4 {
      i := ConfigPrefixDiffers(a, b);
    } else if Kind(b) < 4 {
      i := ConfigPrefixDiffers(b, a);
    } else {
      i := OtherPrefixDiffers(a, b);
    }
  }

  /** The four configuration prefixes ("Configuration file …", "Failed to …") against any other. */
  lemma ConfigPrefixDiffers(a: SynapticError, b: SynapticError) returns (i: nat)
    requires Kind(a) < 4 && Kind(a) != Kind(b)
    ensures i < |Prefix(a)| && i < |Prefix(b)| && Prefix(a)[i] != Prefix(b)[i]
  {
    var pa, pb := Prefix(a), Prefix(b);
    i := if pa[0] != pb[0] then 0 else if pa[7] != pb[7] then 7 else 10;
  }

  /** Any two different prefixes of the variants from `ServerNotFound` on. */
  lemma OtherPrefixDiffers(a: SynapticError, b: SynapticError) returns (i: nat)
    requires 4 <= Kind(a) && 4 <= Kind(b) && Kind(a) != Kind(b)
    ensures i < |Prefix(a)| && i < |Prefix(b)| && Prefix(a)[i] != Prefix(b)[i]
  {
    var pa, pb := Prefix(a), Prefix(b);
    i := if pa[0] != pb[0] then 0 else if pa[1] != pb[1] then 1 else 7;
  }

  /** The message determines the error: variant and payload can be read back from the text. */
  lemma {:induction false} MessageInjective(a: SynapticError, b: SynapticError)
    requires Message(a) == Message(b)
    ensures a == b
  {
    if Kind(a) != Kind(b) {
      var i := PrefixesIncomparable(a, b);
      // Message(a) and Message(b) would differ at index i.
      assert false;
    }
    assert Prefix(a) == Prefix(b);
  }

  /** Serialisation uses the same code and message as the `From` conversion. */
  lemma SerializeAgreesWithFrom(e: SynapticError)
    ensures Serialize(e).code == Code(e) && Serialize(e).message == Message(e)
  {
  }
}
