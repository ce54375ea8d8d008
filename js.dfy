/** The few pieces of JavaScript semantics the journal app's core relies on:
    truthiness of request-body values, the `Date` constructor, and `String.prototype.trim`. */
module Js {

  datatype Option<+T> = None | Some(value: T)

  /** A `Date` object: a time value in milliseconds since the epoch, or the Invalid Date
      (whose time value is NaN). */
  datatype Date = Time(ms: int) | InvalidDate

  /** The largest magnitude a time value may have (TimeClip, ECMAScript section 21.4.1.31). */
  const MaxTime: int := 8_640_000_000_000_000

  /** `Date.parse` on a string: the time value it denotes, or None where the engine yields NaN.
      Parsing is engine behaviour, so every operation that parses takes it as a parameter. */
  type DateParser = string -> Option<int>

  /** A property of a request body: a JSON value, `Undefined` when the property is absent,
      or a `Date` object once a handler has coerced the property in place. */
  datatype Value =
    | Undefined
    | Null
    | Bool(b: bool)
    | Num(n: int)
    | Str(s: string)
    | DateObj(d: Date)

  /** JavaScript truthiness: `undefined`, `null`, `false`, `0` and `""` are falsy; every object is truthy. */
  predicate Truthy(v: Value)
    ensures !Truthy(v) <==> v in {Undefined, Null, Bool(false), Num(0), Str("")}
  {
    match v
    case Undefined => false
    case Null => false
    case Bool(b) => b
    case Num(n) => n != 0
    case Str(s) => s != ""
    case DateObj(_) => true
  }

  function TimeClip(t: int): (d: Date)
    ensures d.Time? <==> -MaxTime <= t <= MaxTime
    ensures d.Time? ==> d.ms == t
  {
    if -MaxTime <= t <= MaxTime then Time(t) else InvalidDate
  }

  /** `new Date(v)` with one argument: strings are parsed, numbers are time values,
      a Date is copied, and the rest go through ToNumber. */
  function NewDate(v: Value, parse: DateParser): (d: Date)
    ensures v.Str? ==> (d.Time? <==> parse(v.s).Some? && -MaxTime <= parse(v.s).value <= MaxTime)
    ensures v.Str? && d.Time? ==> d.ms == parse(v.s).value
    ensures v.Num? ==> (d.Time? <==> -MaxTime <= v.n <= MaxTime)
    ensures v.DateObj? ==> d == v.d
    ensures v.Undefined? ==> d == InvalidDate
  {
    match v
    case Undefined => InvalidDate
    case Null => Time(0)
    case Bool(b) => Time(if b then 1 else 0)
    case Num(n) => TimeClip(n)
    case Str(s) => if parse(s).Some? then TimeClip(parse(s).value) else InvalidDate
    case DateObj(d) => d
  }

  /** WhiteSpace and LineTerminator code points, the characters `trim` removes
      (ECMAScript sections 12.2 and 12.3). */
  predicate IsWhitespace(c: char) {
    || c == '\t' || c == '\n' || c == '\U{B}' || c == '\U{C}' || c == '\r' || c == ' '
    || c == '\U{A0}' || c == '\U{1680}' || ('\U{2000}' <= c <= '\U{200A}')
    || c == '\U{2028}' || c == '\U{2029}' || c == '\U{202F}' || c == '\U{205F}'
    || c == '\U{3000}' || c == '\U{FEFF}'
  }

  /** Every character of `s` is whitespace (vacuously so for the empty string). */
  predicate Blank(s: string) {
    forall i :: 0 <= i < |s| ==> IsWhitespace(s[i])
  }

  /** Drops leading whitespace: the result is the suffix of `s` that starts at its first
      non-whitespace character. */
  function TrimStart(s: string): (r: string)
    ensures |r| <= |s| && r == s[|s| - |r|..]
    ensures r == [] || !IsWhitespace(r[0])
    ensures Blank(s[..|s| - |r|])
  {
    if s != [] && IsWhitespace(s[0]) then
      var r := TrimStart(s[1..]);
      assert s[1..][..|s[1..]| - |r|] == s[1..|s| - |r|];
      r
    else
      s
  }

  /** Drops trailing whitespace: the result is the prefix of `s` that ends at its last
      non-whitespace character. */
  function TrimEnd(s: string): (r: string)
    ensures |r| <= |s| && r == s[..|r|]
    ensures r == [] || !IsWhitespace(r[|r| - 1])
    ensures Blank(s[|r|..])
  {
    if s != [] && IsWhitespace(s[|s| - 1]) then
      var r := TrimEnd(s[..|s| - 1]);
      assert s[..|s| - 1][|r|..] + [s[|s| - 1]] == s[|r|..];
      r
    else
      s
  }

  /** `String.prototype.trim`: strips whitespace from both ends; what is left neither starts
      nor ends with whitespace. */
  function Trim(s: string): (r: string)
    ensures |r| <= |s|
    ensures r == [] || (!IsWhitespace(r[0]) && !IsWhitespace(r[|r| - 1]))
  {
    TrimEnd(TrimStart(s))
  }

  /** `s.trim() === ""` holds exactly for the strings made of whitespace only. */
  lemma TrimIsEmptyIffBlank(s: string)
    ensures Trim(s) == "" <==> Blank(s)
  {
    var t := TrimStart(s);
    if t == [] {
      assert s[..|s|] == s;
    } else {
      assert s[|s| - |t|] == t[0];
      assert t[0..] == t;
    }
  }
}
