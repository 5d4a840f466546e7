/** Logger helpers: the source-file basename, the level filter of the
    `LOG_*` macros, and `CheckNotNull`. Record output, flushing and the
    abort after a FATAL record are not part of this model. */
module Logging {
  import opened ByteOrder
  import opened Wrappers

  datatype LogLevel = TRACE | DEBUG | INFO | WARN | ERROR | FATAL
  {
    /** The enumerator's value. */
    function Rank(): (r: nat)
      ensures r < NumLogLevels
    {
      match this
      case TRACE => 0
      case DEBUG => 1
      case INFO => 2
      case WARN => 3
      case ERROR => 4
      case FATAL => 5
    }
  }

  const NumLogLevels: nat := 6

  /** Whether `LOG_<level>` builds a record while the global level is
      threshold: TRACE, DEBUG and INFO test the threshold, the others do not. */
  function RecordBuilt(threshold: LogLevel, level: LogLevel): (b: bool)
    ensures b <==> (WARN.Rank() <= level.Rank() || threshold.Rank() <= level.Rank())
  {
    match level
    case TRACE | DEBUG | INFO => threshold.Rank() <= level.Rank()
    case WARN | ERROR | FATAL => true
  }

  /** Lowering the threshold never suppresses a record that was built. */
  lemma RecordBuiltMonotone(t1: LogLevel, t2: LogLevel, level: LogLevel)
    requires t1.Rank() <= t2.Rank() && RecordBuilt(t2, level)
    ensures RecordBuilt(t1, level)
  {
  }

  /** Even with the threshold at FATAL, WARN and ERROR records are built. */
  lemma WarnAndErrorIgnoreThreshold(t: LogLevel)
    ensures RecordBuilt(t, WARN) && RecordBuilt(t, ERROR) && RecordBuilt(t, FATAL)
    ensures RecordBuilt(t, INFO) <==> t.Rank() <= INFO.Rank()
  {
  }

  /** The last index of c in s (`strrchr`). */
  function LastIndexOf(s: seq<Byte>, c: Byte): (r: Option<nat>)
    ensures r.Some? ==> r.value < |s| && s[r.value] == c
    ensures r.Some? ==> forall i :: r.value < i < |s| ==> s[i] != c
    ensures r.None? ==> forall i :: 0 <= i < |s| ==> s[i] != c
  {
    if |s| == 0 then None
    else if s[|s| - 1] == c then Some(|s| - 1)
    else LastIndexOf(s[..|s| - 1], c)
  }

  /** `data_` is the text from the basename on; `size_` its length. */
  datatype SourceFile = SourceFile(data: seq<Byte>, size: int)

  /** A C string: the bytes before its terminating NUL. */
  predicate NoNul(s: seq<Byte>)
  {
    forall i :: 0 <= i < |s| ==> s[i] != '\0'
  }

  /** `SourceFile(const char (&arr)[N])`: arr is a string literal, its NUL
      terminator included, so N - 1 is the length of the text. */
  function SourceFileOfArray(arr: seq<Byte>): (f: SourceFile)
    requires |arr| >= 1 && arr[|arr| - 1] == '\0' && NoNul(arr[..|arr| - 1])
    ensures f.size == |f.data|
  {
    var text := arr[..|arr| - 1];
    match LastIndexOf(text, '/')
    case None => SourceFile(text, |arr| - 1)
    case Some(slash) => SourceFile(text[slash + 1..], |arr| - 1 - (slash + 1))
  }

  /** `SourceFile(const char* filename)`: the size is `strlen` of the basename. */
  function SourceFileOfPointer(filename: seq<Byte>): (f: SourceFile)
    requires NoNul(filename)
  {
    var data := match LastIndexOf(filename, '/')
                case None => filename
                case Some(slash) => filename[slash + 1..];
    SourceFile(data, |data|)
  }

  /** The basename is the text after the last '/', or the whole name when
      it has none; size_ is its length. */
  lemma SourceFileIsBasename(filename: seq<Byte>)
    requires NoNul(filename)
    ensures var f := SourceFileOfPointer(filename);
            f.size == |f.data| && '/' !in f.data
            && exists k :: 0 <= k <= |filename| && filename[k..] == f.data
                           && (k == 0 || filename[k - 1] == '/')
    ensures '/' !in filename ==> SourceFileOfPointer(filename).data == filename
  {
    var f := SourceFileOfPointer(filename);
    match LastIndexOf(filename, '/')
    case None =>
      assert filename[0..] == f.data;
    case Some(slash) =>
      assert filename[slash + 1..] == f.data;
  }

  /** Both constructors agree on a string literal. */
  lemma SourceFileConstructorsAgree(name: seq<Byte>)
    requires NoNul(name)
    ensures var arr := name + ['\0'];
            arr[..|arr| - 1] == name && SourceFileOfArray(arr) == SourceFileOfPointer(name)
  {
    var arr := name + ['\0'];
    assert arr[..|arr| - 1] == name;
  }

  /** `CheckNotNull`: returns its argument; a null pointer (None) also
      produces a FATAL record holding the names text. */
  function CheckNotNull<T>(names: seq<Byte>, ptr: Option<T>): (r: (Option<T>, Option<(LogLevel, seq<Byte>)>))
    ensures r.0 == ptr
    ensures ptr.None? <==> r.1.Some?
    ensures r.1.Some? ==> r.1.value == (FATAL, names)
  {
    if ptr.None? then (ptr, Some((FATAL, names))) else (ptr, None)
  }
}
