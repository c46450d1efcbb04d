/** The library's error value: a kind, a chain of context messages and an
    optional path, built fluently and rendered by `Display`. */
module ErrorModel {

  import opened Wrappers

  /** Element types named in dtype errors; `Debug` prints the variant name. */
  datatype DataType = U8 | U32 | I16 | I32 | I64 | F16 | F32 | F64

  /** A tensor shape, represented only by what its `Debug` output reads. */
  datatype Shape = Shape(debugText: string)

  /** `std::io::Error`, represented only by its `Display` text. */
  datatype IoError = IoError(text: string)

  /** `std::num::ParseIntError`, represented only by its `Display` text. */
  datatype ParseIntError = ParseIntError(text: string)

  datatype ErrorKind =
    | UnexpectedDType(msg: string, expected: DataType, got: DataType)
    | UnsupportedDataTypeForOp(dtype: DataType, op: string)
    | UnexpectedNumberOfDims(expectedRank: nat, gotRank: nat, shape: Shape)
    | Io(ioError: IoError)
    | ParseInt(parseError: ParseIntError)
    | Msg(message: string)

  /** `Error` without its backtrace: paths are kept as strings. */
  datatype Error = Error(kind: ErrorKind, context: seq<string>, path: Option<string>)

  /** What `source()` can point at. */
  datatype SourceError = IoSource(ioError: IoError) | ParseIntSource(parseError: ParseIntError)

  // ---------------------------------------------------------------------
  // Construction
  // ---------------------------------------------------------------------

  /** `Error::new`: the kind alone, no context, no path. */
  function NewError(kind: ErrorKind): (e: Error)
    ensures e.kind == kind && e.context == [] && e.path == None
  {
    Error(kind, [], None)
  }

  /** `Error::msg`: a `Msg` error. */
  function FromMessage(m: string): (e: Error)
    ensures e.kind == Msg(m) && e.context == [] && e.path == None
  {
    NewError(Msg(m))
  }

  /** `Error::context`: pushes `c` after the contexts already there. */
  function AddContext(e: Error, c: string): (r: Error)
    ensures r.kind == e.kind && r.path == e.path
    ensures |r.context| == |e.context| + 1
    ensures r.context[..|e.context|] == e.context && r.context[|e.context|] == c
  {
    e.(context := e.context + [c])
  }

  /** `Error::with_path`: sets the path, replacing any earlier one. */
  function WithPath(e: Error, p: string): (r: Error)
    ensures r.kind == e.kind && r.context == e.context && r.path == Some(p)
  {
    e.(path := Some(p))
  }

  /** `From<io::Error>`. */
  function FromIoError(err: IoError): (e: Error)
    ensures e.kind == Io(err) && e.context == [] && e.path == None
  {
    NewError(Io(err))
  }

  /** `From<ParseIntError>`. */
  function FromParseIntError(err: ParseIntError): (e: Error)
    ensures e.kind == ParseInt(err) && e.context == [] && e.path == None
  {
    NewError(ParseInt(err))
  }

  /** `source()`: the wrapped standard error, for `Io` and `ParseInt` only. */
  function Source(e: Error): (r: Option<SourceError>)
    ensures r != None <==> (e.kind.Io? || e.kind.ParseInt?)
    ensures e.kind.Io? ==> r == Some(IoSource(e.kind.ioError))
    ensures e.kind.ParseInt? ==> r == Some(ParseIntSource(e.kind.parseError))
  {
    match e.kind
    case Io(err) => Some(IoSource(err))
    case ParseInt(err) => Some(ParseIntSource(err))
    case _ => None
  }

  /** Contexts accumulate oldest first and the path is kept through them. */
  lemma BuilderChain(m: string, c1: string, c2: string, p: string)
    ensures AddContext(AddContext(FromMessage(m), c1), c2).context == [c1, c2]
    ensures WithPath(AddContext(AddContext(FromMessage(m), c1), c2), p).path == Some(p)
    ensures WithPath(AddContext(AddContext(FromMessage(m), c1), c2), p).kind == Msg(m)
  {
  }

  // ---------------------------------------------------------------------
  // Display
  // ---------------------------------------------------------------------

  function DataTypeName(d: DataType): string
  {
    match d
    case U8 => "U8"
    case U32 => "U32"
    case I16 => "I16"
    case I32 => "I32"
    case I64 => "I64"
    case F16 => "F16"
    case F32 => "F32"
    case F64 => "F64"
  }

  function DigitChar(d: nat): char
    requires d < 10
  {
    "0123456789"[d]
  }

  function DigitValue(c: char): nat
  {
    if '0' <= c <= '9' then (c as int - '0' as int) else 0
  }

  predicate IsDigit(c: char)
  {
    '0' <= c <= '9'
  }

  /** `{}` of a `usize`: decimal digits, no sign, no leading zero. */
  function Decimal(n: nat): (s: string)
    ensures |s| >= 1
    ensures forall i :: 0 <= i < |s| ==> IsDigit(s[i])
    ensures n > 0 ==> s[0] != '0'
    decreases n
  {
    if n < 10 then [DigitChar(n)] else Decimal(n / 10) + [DigitChar(n % 10)]
  }

  /** Reads a string of decimal digits back as a number. */
  function ParseDecimal(s: string): nat
    decreases |s|
  {
    if s == [] then 0 else 10 * ParseDecimal(s[..|s| - 1]) + DigitValue(s[|s| - 1])
  }

  lemma {:induction false} DecimalRoundTrip(n: nat)
    ensures ParseDecimal(Decimal(n)) == n
    decreases n
  {
    var s := Decimal(n);
    if n < 10 {
      assert s[..0] == [];
    } else {
      DecimalRoundTrip(n / 10);
      assert s[..|s| - 1] == Decimal(n / 10);
    }
  }

  /** The escape `{:?}` writes for one character of a path. Characters
      other than these six are written as they are. */
  function EscapeChar(c: char): string
  {
    if c == '"' then "\\\""
    else if c == '\\' then "\\\\"
    else if c == '\n' then "\\n"
    else if c == '\r' then "\\r"
    else if c == '\t' then "\\t"
    else if c == '\0' then "\\0"
    else [c]
  }

  function Escape(s: string): string
    decreases |s|
  {
    if s == [] then "" else EscapeChar(s[0]) + Escape(s[1..])
  }

  /** `{:?}` of a path: the escaped text between double quotes. */
  function Quote(p: string): string
  {
    "\"" + Escape(p) + "\""
  }

  /** Reads escaped text back; the inverse of `Escape`. */
  function Unescape(s: string): string
    decreases |s|
  {
    if s == [] then ""
    else if s[0] == '\\' && |s| >= 2 then
      var c := s[1];
      [if c == 'n' then '\n' else if c == 'r' then '\r' else if c == 't' then '\t'
       else if c == '0' then '\0' else c] + Unescape(s[2..])
    else [s[0]] + Unescape(s[1..])
  }

  lemma {:induction false} UnescapeEscape(s: string)
    ensures Unescape(Escape(s)) == s
    decreases |s|
  {
    if s != [] {
      var e, rest := EscapeChar(s[0]), Escape(s[1..]);
      UnescapeEscape(s[1..]);
      if |e| == 2 {
        assert (e + rest)[2..] == rest;
      } else {
        assert (e + rest)[1..] == rest;
      }
    }
  }

  /** A quoted path starts and ends with a double quote, and unquoting it
      gives the path back. */
  lemma QuoteRoundTrip(p: string)
    ensures |Quote(p)| >= 2 && Quote(p)[0] == '"' && Quote(p)[|Quote(p)| - 1] == '"'
    ensures Unescape(Quote(p)[1..|Quote(p)| - 1]) == p
  {
    assert Quote(p)[1..|Quote(p)| - 1] == Escape(p);
    UnescapeEscape(p);
  }

  /** `Display for ErrorKind`: wrapped errors and bare messages print their
      own text, the others a fixed sentence around their fields. */
  function KindText(k: ErrorKind): (r: string)
    ensures k.Msg? ==> r == k.message
    ensures k.Io? ==> r == k.ioError.text
    ensures k.ParseInt? ==> r == k.parseError.text
    ensures k.UnexpectedDType? ==> |r| >= |k.msg| && r[..|k.msg|] == k.msg
    ensures k.UnsupportedDataTypeForOp? ==> |r| >= |k.op| && r[|r| - |k.op|..] == k.op
    ensures k.UnexpectedNumberOfDims? ==> |r| >= 1 && r[|r| - 1] == ')'
  {
    match k
    case UnexpectedDType(msg, expected, got) =>
      msg + ", expected: " + DataTypeName(expected) + ", got: " + DataTypeName(got)
    case UnsupportedDataTypeForOp(dtype, op) =>
      "unsupported dtype " + DataTypeName(dtype) + " for op " + op
    case UnexpectedNumberOfDims(expected, got, shape) =>
      "unexpected rank, expected: " + Decimal(expected) + ", got: " + Decimal(got)
      + " (" + shape.debugText + ")"
    case Io(err) => err.text
    case ParseInt(err) => err.text
    case Msg(m) => m
  }

  /** One line per context, oldest first. */
  function ContextLines(cs: seq<string>): string
    decreases |cs|
  {
    if cs == [] then "" else ContextLines(cs[..|cs| - 1]) + "\ncontext: " + cs[|cs| - 1]
  }

  /** The lines of the first `i + 1` contexts extend those of the first `i`. */
  lemma ContextLinesSnoc(cs: seq<string>, i: nat)
    requires i < |cs|
    ensures ContextLines(cs[..i + 1]) == ContextLines(cs[..i]) + "\ncontext: " + cs[i]
  {
    assert cs[..i + 1][..i] == cs[..i];
  }

  function PathLine(path: Option<string>): string
  {
    match path
    case None => ""
    case Some(p) => "\npath: " + Quote(p)
  }

  /** `Display for Error`: the kind, then the contexts, then the path. */
  function ErrorText(e: Error): (r: string)
    ensures |r| >= |KindText(e.kind)| && r[..|KindText(e.kind)|] == KindText(e.kind)
    ensures e.context == [] && e.path == None ==> r == KindText(e.kind)
  {
    KindText(e.kind) + ContextLines(e.context) + PathLine(e.path)
  }

  /** The context loop of `fmt`: one line per context, appended to what
      the formatter already holds. */
  method WriteContexts(s0: string, cs: seq<string>) returns (s: string)
    ensures s == s0 + ContextLines(cs)
  {
    s := s0;
    var i := 0;
    while i < |cs|
      invariant 0 <= i <= |cs|
      invariant s == s0 + ContextLines(cs[..i])
    {
      ContextLinesSnoc(cs, i);
      s := s + "\ncontext: " + cs[i];
      i := i + 1;
    }
    assert cs[..|cs|] == cs;
  }

  /** `Display for Error::fmt`, written to the formatter piece by piece. */
  method Fmt(e: Error) returns (s: string)
    ensures s == ErrorText(e)
  {
    s := KindText(e.kind);
    s := WriteContexts(s, e.context);
    if e.path.Some? {
      s := s + "\npath: " + Quote(e.path.value);
    }
  }

  /** Adding a context to an error without a path adds one line at the end. */
  lemma DisplayAddContext(e: Error, c: string)
    requires e.path == None
    ensures ErrorText(AddContext(e, c)) == ErrorText(e) + "\ncontext: " + c
  {
    var cs := e.context + [c];
    assert cs[..|cs| - 1] == e.context;
  }

  /** Setting a path adds its quoted line after every context. */
  lemma DisplayWithPath(e: Error, p: string)
    ensures ErrorText(WithPath(e, p)) == KindText(e.kind) + ContextLines(e.context) + "\npath: " + Quote(p)
  {
  }

  /** A bare message error displays as the message itself. */
  lemma DisplayMessage(m: string)
    ensures ErrorText(FromMessage(m)) == m
  {
  }

  /** A character that `{:?}` writes as an escape sequence. */
  predicate NeedsEscape(c: char)
  {
    c == '"' || c == '\\' || c == '\n' || c == '\r' || c == '\t' || c == '\0'
  }

  /** Text with no character that needs escaping is quoted verbatim. */
  lemma {:induction false} EscapePlain(s: string)
    requires forall i :: 0 <= i < |s| ==> !NeedsEscape(s[i])
    ensures Escape(s) == s
    decreases |s|
  {
    if s != [] {
      EscapePlain(s[1..]);
    }
  }

  lemma ContextLinesTwo(a: string, b: string)
    ensures ContextLines([a, b]) == "\ncontext: " + a + "\ncontext: " + b
  {
    assert [a, b][..1] == [a];
    assert [a][..0] == [];
    assert ContextLines([a]) == "" + "\ncontext: " + a;
    assert ContextLines([a, b]) == ContextLines([a]) + "\ncontext: " + b;
  }

  /** The full layout of a message error with two contexts and a plain
      path: message, one line per context in order, the quoted path. */
  lemma DisplayLayout(m: string, c1: string, c2: string, p: string)
    requires forall i :: 0 <= i < |p| ==> !NeedsEscape(p[i])
    ensures ErrorText(WithPath(AddContext(AddContext(FromMessage(m), c1), c2), p))
         == m + ("\ncontext: " + c1 + "\ncontext: " + c2) + ("\npath: " + ("\"" + p + "\""))
  {
    var e := AddContext(AddContext(FromMessage(m), c1), c2);
    assert e.context == [c1, c2];
    ContextLinesTwo(c1, c2);
    EscapePlain(p);
    assert PathLine(Some(p)) == "\npath: " + ("\"" + p + "\"");
  }
}
