/** The small part of the JavaScript runtime the application leans on:
    optional values, thrown exceptions, dynamic values and their truthiness,
    String.prototype.trim and the ASCII part of String.prototype.toLowerCase. */
module Js {

  datatype Option<+T> = None | Some(value: T)

  /** What a `throw` carries: an `Error` object with a message, or any other value. */
  datatype Exception = Error(message: string) | NonError

  /** The outcome of a call that may throw (an awaited promise that may reject). */
  datatype Call<+T> = Returned(value: T) | Threw(exc: Exception)

  /** `error instanceof Error ? error.message : 'Unknown error'` */
  function MessageOf(e: Exception): (m: string)
    ensures e.Error? ==> m == e.message
    ensures e.NonError? ==> m == "Unknown error"
  {
    match e
    case Error(msg) => msg
    case NonError => "Unknown error"
  }

  /** A dynamically typed value, as far as the code inspects one: strings, objects
      (only their `url` property is ever read) and everything else by truthiness. */
  datatype Value = Undefined | Null | Str(s: string) | Obj(url: Value) | Other(truthy: bool)

  /** JavaScript truthiness of a dynamic value. */
  predicate Truthy(v: Value) {
    match v
    case Undefined => false
    case Null => false
    case Str(s) => s != ""
    case Obj(_) => true
    case Other(t) => t
  }

  /** Truthiness of an optional string (`undefined` and `""` are falsy). */
  predicate Present(s: Option<string>) {
    s.Some? && s.value != ""
  }

  /** WhiteSpace and LineTerminator code points (ECMA-262, sections 12.2 and 12.3),
      the characters String.prototype.trim removes. */
  predicate IsWhiteSpace(c: char) {
    var n := c as int;
    (0x09 <= n <= 0x0D) || n == 0x20 || n == 0xA0 || n == 0x1680 ||
    (0x2000 <= n <= 0x200A) || n == 0x2028 || n == 0x2029 || n == 0x202F ||
    n == 0x205F || n == 0x3000 || n == 0xFEFF
  }

  predicate AllWhiteSpace(s: string) {
    forall i :: 0 <= i < |s| ==> IsWhiteSpace(s[i])
  }

  /** The number of white-space characters `s` starts with. */
  function LeadingSpace(s: string): (k: nat)
    ensures k <= |s|
    ensures forall i :: 0 <= i < k ==> IsWhiteSpace(s[i])
    ensures k < |s| ==> !IsWhiteSpace(s[k])
  {
    if s == [] || !IsWhiteSpace(s[0]) then 0 else 1 + LeadingSpace(s[1..])
  }

  /** Where the trailing white space of `s` begins. */
  function TrailingSpace(s: string): (e: nat)
    ensures e <= |s|
    ensures forall i :: e <= i < |s| ==> IsWhiteSpace(s[i])
    ensures e > 0 ==> !IsWhiteSpace(s[e - 1])
  {
    if s == [] || !IsWhiteSpace(s[|s| - 1]) then |s| else TrailingSpace(s[..|s| - 1])
  }

  /** String.prototype.trim: `s` without its leading and trailing white space;
      nothing is left exactly when `s` is all white space. */
  function Trim(s: string): (r: string)
    ensures |r| <= |s|
    ensures r == [] || (!IsWhiteSpace(r[0]) && !IsWhiteSpace(r[|r| - 1]))
    ensures AllWhiteSpace(s) ==> r == []
    ensures r == [] ==> AllWhiteSpace(s)
  {
    var k := LeadingSpace(s);
    var e := TrailingSpace(s);
    if e <= k then [] else s[k..e]
  }

  /** The trimmed text is a contiguous part of the original, surrounded only by white space. */
  lemma TrimIsInfix(s: string)
    ensures var r := Trim(s); var k := LeadingSpace(s);
            k + |r| <= |s| && s[k..k + |r|] == r &&
            AllWhiteSpace(s[..k]) && AllWhiteSpace(s[k + |r|..])
  {
    TrimmedSpan(s);
    WhiteSpaceSlice(s, 0, LeadingSpace(s));
    assert s[..LeadingSpace(s)] == s[0..LeadingSpace(s)];
    TrimmedTail(s);
  }

  /** Where the trimmed text sits in the original. */
  lemma TrimmedSpan(s: string)
    ensures var r := Trim(s); var k := LeadingSpace(s);
            k + |r| <= |s| && s[k..k + |r|] == r
  {
    var k := LeadingSpace(s);
    var e := TrailingSpace(s);
    if e <= k {
      assert Trim(s) == [];
    } else {
      assert Trim(s) == s[k..e];
    }
  }

  /** Only white space follows the trimmed text. */
  lemma TrimmedTail(s: string)
    ensures var k := LeadingSpace(s) + |Trim(s)|;
            k <= |s| && AllWhiteSpace(s[k..])
  {
    var k := LeadingSpace(s);
    var e := TrailingSpace(s);
    if e <= k {
      assert Trim(s) == [] && k == |s|;
      assert s[k..] == [];
    } else {
      assert |Trim(s)| == e - k;
      WhiteSpaceSlice(s, e, |s|);
      assert s[e..] == s[e..|s|];
    }
  }

  /** A stretch of white-space characters is all white space. */
  lemma WhiteSpaceSlice(s: string, a: nat, b: nat)
    requires a <= b <= |s|
    requires forall i :: a <= i < b ==> IsWhiteSpace(s[i])
    ensures AllWhiteSpace(s[a..b])
  {
  }

  /** `!text.trim()`: the guard both the page and the route use. */
  predicate Blank(s: string) {
    Trim(s) == ""
  }

  /** The text counts as blank exactly when it is all white space (the empty text
      included). */
  lemma BlankIffAllWhiteSpace(s: string)
    ensures Blank(s) <==> AllWhiteSpace(s)
  {
  }

  /** ASCII lower-casing of one character. */
  function LowerChar(c: char): char {
    if 'A' <= c <= 'Z' then (c as int + 32) as char else c
  }

  /** String.prototype.toLowerCase on ASCII text (the only text it is applied to). */
  function ToLower(s: string): (r: string)
    ensures |r| == |s|
    ensures forall i :: 0 <= i < |s| ==> r[i] == LowerChar(s[i])
  {
    seq(|s|, i requires 0 <= i < |s| => LowerChar(s[i]))
  }
}
