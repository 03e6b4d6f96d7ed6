// The pretty-printer used by the Mafia game for its log lines: a printer object
// accumulates text in a member string, one `f` call at a time.

module PrettyPrint {

  import opened Common

  /** Every value the printer's `f` overloads accept: integers, strings, and the
      standard containers over such values. A set is given by its elements in
      the container's iteration order. */
  datatype Value =
    | Int(n: int)
    | Text(text: string)
    | Vector(items: seq<Value>)
    | SetOf(items: seq<Value>)
    | Pair(first: Value, second: Value)
    | Tuple(items: seq<Value>)

  // ---------------------------------------------------------------------------
  // Decimal rendering of integers (std::to_string) and its inverse

  predicate IsDigit(c: char) { '0' <= c <= '9' }

  function DigitChar(d: nat): (c: char)
    requires d < 10
    ensures IsDigit(c) && (c as int) - ('0' as int) == d
  {
    (('0' as int) + d) as char
  }

  /** The digits of n, most significant first, without leading zeros. */
  function Digits(n: nat): (r: string)
    ensures |r| >= 1
    ensures forall k :: 0 <= k < |r| ==> IsDigit(r[k])
    ensures r[0] == '0' <==> n == 0
  {
    if n < 10 then [DigitChar(n)] else Digits(n / 10) + [DigitChar(n % 10)]
  }

  /** What std::to_string gives for an integer: an optional minus sign, then digits. */
  function DecimalString(i: int): string {
    if i < 0 then "-" + Digits(-i) else Digits(i)
  }

  /** The number a string of decimal digits denotes. */
  function DigitsValue(s: string): nat
    requires forall k :: 0 <= k < |s| ==> IsDigit(s[k])
  {
    if s == [] then 0 else DigitsValue(s[..|s| - 1]) * 10 + DigitValue(s[|s| - 1])
  }

  function DigitValue(c: char): nat
    requires IsDigit(c)
  {
    (c as int) - ('0' as int)
  }

  /** Reads back an optional minus sign followed by digits. */
  function ParseDecimal(s: string): (r: Option<int>) {
    if |s| >= 1 && s[0] == '-' && IsDigitString(s[1..]) then Some(0 - DigitsValue(s[1..]) as int)
    else if IsDigitString(s) then Some(DigitsValue(s))
    else None
  }

  predicate IsDigitString(s: string) {
    |s| >= 1 && forall k :: 0 <= k < |s| ==> IsDigit(s[k])
  }

  lemma {:induction false} DigitsRoundTrip(n: nat)
    ensures DigitsValue(Digits(n)) == n
  {
    if n >= 10 {
      var d := Digits(n / 10) + [DigitChar(n % 10)];
      assert d[..|d| - 1] == Digits(n / 10);
      DigitsRoundTrip(n / 10);
    }
  }

  /** Decimal rendering loses nothing: parsing it gives the integer back. */
  lemma DecimalRoundTrip(i: int)
    ensures ParseDecimal(DecimalString(i)) == Some(i)
  {
    if i < 0 {
      var d := Digits(-i);
      var s := "-" + d;
      assert s[0] == '-' && s[1..] == d;
      assert IsDigitString(d);
      DigitsRoundTrip(-i);
      assert ParseDecimal(s) == Some(0 - DigitsValue(d) as int);
    } else {
      var d := Digits(i);
      assert IsDigit(d[0]);
      assert IsDigitString(d);
      DigitsRoundTrip(i);
      assert ParseDecimal(d) == Some(DigitsValue(d) as int);
    }
  }

  /** Hence distinct integers render differently. */
  lemma DecimalInjective(i: int, j: int)
    requires DecimalString(i) == DecimalString(j)
    ensures i == j
  {
    DecimalRoundTrip(i);
    DecimalRoundTrip(j);
  }

  // ---------------------------------------------------------------------------
  // The text the printer accumulates

  /** Joins parts with sep between neighbours and nothing after the last. */
  function Join(parts: seq<string>, sep: string): string {
    if |parts| == 0 then ""
    else if |parts| == 1 then parts[0]
    else Join(parts[..|parts| - 1], sep) + sep + parts[|parts| - 1]
  }

  /** Every part followed by sep, the last one included. */
  function WithSeparators(parts: seq<string>, sep: string): string {
    if parts == [] then "" else WithSeparators(parts[..|parts| - 1], sep) + parts[|parts| - 1] + sep
  }

  /** str.substr(0, str.size() - 2). When the string is shorter than two
      characters the unsigned count size() - 2 wraps around to a huge value,
      and substr then keeps the whole string. */
  function DropLastTwo(x: string): (r: string) {
    if |x| >= 2 then x[..|x| - 2] else x
  }

  /** format_container: the open bracket, every rendered element followed by
      ", ", the last two characters dropped, then the close bracket. */
  function Bracketed(s: string, parts: seq<string>, openBracket: string, closeBracket: string): string {
    DropLastTwo(s + openBracket + WithSeparators(parts, ", ")) + closeBracket
  }

  /** The printer's text after `f(v)` when it held s before. */
  function AppendTo(s: string, v: Value): string
    decreases v, 1
  {
    match v
    case Int(n) => s + DecimalString(n)
    case Text(t) => s + t
    case Vector(items) => Bracketed(s, RenderAll(items), "[", "]")
    case SetOf(items) => Bracketed(s, RenderAll(items), "{", "}")
    case Tuple(items) => s + "(" + Join(RenderAll(items), ", ") + ")"
    case Pair(a, b) => s + "<" + AppendTo(AppendTo("", a) + ", ", b) + ">"
  }

  /** Each value rendered on a fresh printer. */
  function RenderAll(items: seq<Value>): seq<string>
    decreases items, 0
  {
    if items == [] then [] else [AppendTo("", items[0])] + RenderAll(items[1..])
  }

  /** What a fresh printer holds after `f(v)`. */
  function Render(v: Value): string {
    AppendTo("", v)
  }

  predicate IsEmptyContainer(v: Value) {
    (v.Vector? || v.SetOf?) && v.items == []
  }

  // ---------------------------------------------------------------------------
  // Properties of the rendering

  lemma {:induction false} RenderAllAt(items: seq<Value>, k: nat)
    requires k < |items|
    ensures |RenderAll(items)| == |items| && RenderAll(items)[k] == Render(items[k])
  {
    if k > 0 {
      RenderAllAt(items[1..], k - 1);
    } else if |items| > 1 {
      RenderAllAt(items[1..], 0);
    }
  }

  lemma {:induction false} RenderAllLength(items: seq<Value>)
    ensures |RenderAll(items)| == |items|
  {
    if items != [] { RenderAllLength(items[1..]); }
  }

  /** Appending a separator after every part and dropping the last one gives the join. */
  lemma {:induction false} WithSeparatorsIsJoin(parts: seq<string>, sep: string)
    requires parts != []
    ensures WithSeparators(parts, sep) == Join(parts, sep) + sep
  {
    if |parts| > 1 {
      WithSeparatorsIsJoin(parts[..|parts| - 1], sep);
    }
  }

  /** One more part written, with its separator, extends the separated prefix. */
  lemma SeparatedStep(text: string, prefix: string, parts: seq<string>, k: nat, sep: string)
    requires k < |parts| && text == prefix + WithSeparators(parts[..k], sep)
    ensures text + parts[k] + sep == prefix + WithSeparators(parts[..k + 1], sep)
  {
    assert parts[..k + 1][..k] == parts[..k];
  }

  /** The last part written without a separator completes the join. */
  lemma JoinedStep(text: string, prefix: string, parts: seq<string>, sep: string)
    requires parts != [] && text == prefix + WithSeparators(parts[..|parts| - 1], sep)
    ensures text + parts[|parts| - 1] + "" == prefix + Join(parts, sep)
  {
    JoinAsSeparatedPrefix(parts, sep);
  }

  /** The join of all parts is the separated prefix followed by the last part. */
  lemma JoinAsSeparatedPrefix(parts: seq<string>, sep: string)
    requires parts != []
    ensures Join(parts, sep) == WithSeparators(parts[..|parts| - 1], sep) + parts[|parts| - 1]
  {
    if |parts| > 1 {
      WithSeparatorsIsJoin(parts[..|parts| - 1], sep);
    }
  }

  /** With at least one element, the trim removes exactly the trailing ", ". */
  lemma BracketedNonEmpty(s: string, parts: seq<string>, openBracket: string, closeBracket: string)
    requires parts != []
    ensures Bracketed(s, parts, openBracket, closeBracket) == s + openBracket + Join(parts, ", ") + closeBracket
  {
    WithSeparatorsIsJoin(parts, ", ");
    var x := s + openBracket + Join(parts, ", ") + ", ";
    assert s + openBracket + WithSeparators(parts, ", ") == x;
    assert x[..|x| - 2] == s + openBracket + Join(parts, ", ");
  }

  /** With no element, the trim eats the one-character open bracket and, when
      there is one, the last character written before it. */
  lemma BracketedEmpty(s: string, openBracket: string, closeBracket: string)
    requires |openBracket| == 1
    ensures |s| == 0 ==> Bracketed(s, [], openBracket, closeBracket) == openBracket + closeBracket
    ensures |s| >= 1 ==> Bracketed(s, [], openBracket, closeBracket) == s[..|s| - 1] + closeBracket
  {
    assert s + openBracket + WithSeparators([], ", ") == s + openBracket;
    if |s| >= 1 {
      assert (s + openBracket)[..|s| - 1] == s[..|s| - 1];
    } else {
      assert s + openBracket == openBracket;
    }
  }

  /** A non-empty vector renders as its elements joined by ", " inside brackets:
      the separator trimming removes exactly the trailing ", ". */
  lemma VectorRendering(items: seq<Value>)
    requires items != []
    ensures Render(Vector(items)) == "[" + Join(RenderAll(items), ", ") + "]"
    ensures Render(SetOf(items)) == "{" + Join(RenderAll(items), ", ") + "}"
  {
    var parts := RenderAll(items);
    assert "" + "[" == "[" && "" + "{" == "{";
    assert Render(Vector(items)) == Bracketed("", parts, "[", "]");
    BracketedNonEmpty("", parts, "[", "]");
    assert Render(SetOf(items)) == Bracketed("", parts, "{", "}");
    BracketedNonEmpty("", parts, "{", "}");
  }

  /** Tuples and non-empty vectors share their body; only the brackets differ. */
  lemma TupleMatchesVector(items: seq<Value>)
    requires items != []
    ensures var body := Join(RenderAll(items), ", ");
            Render(Vector(items)) == "[" + body + "]" && Render(Tuple(items)) == "(" + body + ")"
  {
    VectorRendering(items);
  }

  /** On a fresh printer an empty container still renders as its two brackets,
      because the wrapped-around trim count keeps the opening bracket. */
  lemma EmptyContainerOnFreshPrinter()
    ensures Render(Vector([])) == "[]" && Render(SetOf([])) == "{}"
  {
    BracketedEmpty("", "[", "]");
    BracketedEmpty("", "{", "}");
  }

  /** On a printer that already holds text, an empty container eats the opening
      bracket and the last character written before it. */
  lemma EmptyContainerAfterText(s: string)
    requires |s| >= 1
    ensures AppendTo(s, Vector([])) == s[..|s| - 1] + "]"
    ensures AppendTo(s, SetOf([])) == s[..|s| - 1] + "}"
  {
    BracketedEmpty(s, "[", "]");
    BracketedEmpty(s, "{", "}");
  }

  lemma FreshPrefix(x: string)
    ensures "" + x == x
  {
  }

  lemma Regroup(a: string, b: string, c: string, d: string)
    ensures a + b + c + d == a + (b + c + d)
  {
  }

  /** Apart from an empty container, `f(v)` appends exactly the fresh rendering of v:
      whatever the printer already held is kept. */
  lemma AppendIsConcat(s: string, v: Value)
    requires !IsEmptyContainer(v)
    ensures AppendTo(s, v) == s + Render(v)
  {
    match v
    case Int(n) =>
      FreshPrefix(DecimalString(n));
    case Text(t) =>
      FreshPrefix(t);
    case Tuple(items) =>
      assert "" + "(" == "(";
      Regroup(s, "(", Join(RenderAll(items), ", "), ")");
    case Pair(a, b) =>
      assert "" + "<" == "<";
      Regroup(s, "<", AppendTo(AppendTo("", a) + ", ", b), ">");
    case Vector(items) =>
      var parts := RenderAll(items);
      assert AppendTo(s, v) == Bracketed(s, parts, "[", "]");
      BracketedNonEmpty(s, parts, "[", "]");
      VectorRendering(items);
      Regroup(s, "[", Join(parts, ", "), "]");
    case SetOf(items) =>
      var parts := RenderAll(items);
      assert AppendTo(s, v) == Bracketed(s, parts, "{", "}");
      BracketedNonEmpty(s, parts, "{", "}");
      VectorRendering(items);
      Regroup(s, "{", Join(parts, ", "), "}");
  }

  /** A pair renders as "<" first ", " second ">" ... */
  lemma PairRendering(a: Value, b: Value)
    requires !IsEmptyContainer(b)
    ensures Render(Pair(a, b)) == "<" + Render(a) + ", " + Render(b) + ">"
  {
    var inner := AppendTo(Render(a) + ", ", b);
    AppendIsConcat(Render(a) + ", ", b);
    assert Render(Pair(a, b)) == "" + "<" + inner + ">";
    PairShape(Render(a), Render(b));
  }

  lemma PairShape(x: string, y: string)
    ensures "" + "<" + (x + ", " + y) + ">" == "<" + x + ", " + y + ">"
  {
  }

  /** ... except when the second component is an empty container: it is printed
      into the inner printer after the text ", ", and the trim eats the blank
      and the opening bracket. */
  lemma PairWithEmptySecond(a: Value)
    ensures Render(Pair(a, Vector([]))) == "<" + Render(a) + ",]>"
  {
    var s := Render(a) + ", ";
    EmptyContainerAfterText(s);
    var inner := AppendTo(s, Vector([]));
    assert inner == Render(a) + "," + "]" by {
      assert s[..|s| - 1] == Render(a) + ",";
    }
    assert Render(Pair(a, Vector([]))) == "" + "<" + inner + ">";
    ClosingShape(Render(a));
  }

  lemma ClosingShape(x: string)
    ensures "" + "<" + (x + "," + "]") + ">" == "<" + x + ",]>"
  {
  }

  // ---------------------------------------------------------------------------
  // The printer object

  class Printer {
    var str: string

    constructor ()
      ensures str == ""
    {
      str := "";
    }

    /** The accumulated text; reading it changes nothing. */
    function Str(): (r: string)
      reads this
      ensures r == str
    {
      str
    }

    /** All overloads of `f`; each returns the same printer, so chaining
        `p.f(a).f(b)` is two calls on p. */
    method F(v: Value)
      modifies this
      ensures str == AppendTo(old(str), v)
      decreases v, 1
    {
      match v
      case Int(n) =>
        str := str + DecimalString(n);
      case Text(t) =>
        PutText(t);
      case Vector(items) =>
        FormatContainer(items, "[", "]");
      case SetOf(items) =>
        FormatContainer(items, "{", "}");
      case Tuple(items) =>
        FormatTuple(items);
      case Pair(a, b) =>
        FormatPair(a, b);
    }

    /** The string overload of `f`: the text is appended verbatim. */
    method PutText(t: string)
      modifies this
      ensures str == old(str) + t
    {
      str := str + t;
    }

    /** The pair overload: both components go through one inner printer, with
        the text ", " between them. */
    method FormatPair(a: Value, b: Value)
      modifies this
      ensures str == AppendTo(old(str), Pair(a, b))
      decreases Pair(a, b), 0
    {
      var p := new Printer();
      p.F(a);
      p.PutText(", ");
      p.F(b);
      str := str + "<" + p.Str() + ">";
    }

    /** The tuple overload: each component on its own fresh printer, a ", "
        after every component but the last. */
    method FormatTuple(items: seq<Value>)
      modifies this
      ensures str == AppendTo(old(str), Tuple(items))
      decreases items, 0
    {
      ghost var parts := RenderAll(items);
      RenderAllLength(items);
      var ss := "(";
      var k := 0;
      while k < |items|
        invariant 0 <= k <= |items|
        invariant k < |items| ==> ss == "(" + WithSeparators(parts[..k], ", ")
        invariant k == |items| ==> ss == "(" + Join(parts, ", ")
        invariant str == old(str)
      {
        var p := new Printer();
        p.F(items[k]);
        RenderAllAt(items, k);
        if k + 1 == |items| {
          JoinedStep(ss, "(", parts, ", ");
        } else {
          SeparatedStep(ss, "(", parts, k, ", ");
        }
        k := k + 1;
        ss := ss + p.Str() + (if k == |items| then "" else ", ");
      }
      ghost var body := Join(parts, ", ");
      ss := ss + ")";
      assert ss == "(" + body + ")";
      str := str + ss;
      Regroup(old(str), "(", body, ")");
    }

    /** format_container, shared by vectors and sets: every element followed
        by ", ", then the last two characters dropped, then the close bracket. */
    method FormatContainer(items: seq<Value>, openBracket: string, closeBracket: string)
      modifies this
      ensures str == Bracketed(old(str), RenderAll(items), openBracket, closeBracket)
      decreases items, 0
    {
      ghost var parts := RenderAll(items);
      RenderAllLength(items);
      str := str + openBracket;
      var i := 0;
      while i < |items|
        invariant 0 <= i <= |items|
        invariant str == old(str) + openBracket + WithSeparators(parts[..i], ", ")
      {
        var p := new Printer();
        p.F(items[i]);
        RenderAllAt(items, i);
        SeparatedStep(str, old(str) + openBracket, parts, i, ", ");
        str := str + p.Str() + ", ";
        i := i + 1;
      }
      assert parts[..i] == parts;
      str := DropLastTwo(str);
      str := str + closeBracket;
    }
  }

  /** Format(t) is TPrettyPrinter().f(t).Str(). */
  method Format(v: Value) returns (s: string)
    ensures s == Render(v)
  {
    var p := new Printer();
    p.F(v);
    s := p.Str();
  }
}
