/** The values a column or a document field holds, and how a database compares them. */
module Values {

  /** None, or a scalar; an enum is its value, a datetime its number, and JSON its text. */
  datatype Value = Null | Bool(b: bool) | Num(n: real) | Text(s: string) | Json(j: string)

  function LowerChar(c: char): (r: char) {
    if 'A' <= c <= 'Z' then ((c as int) + 32) as char else c
  }

  function Lower(s: string): (r: string)
    ensures |r| == |s|
    ensures forall i :: 0 <= i < |s| ==> r[i] == LowerChar(s[i])
  {
    seq(|s|, i requires 0 <= i < |s| => LowerChar(s[i]))
  }

  /** The value as a case-insensitive field compares it. */
  function Fold(v: Value, ignoresCase: bool): Value {
    if ignoresCase && v.Text? then Text(Lower(v.s)) else v
  }

  predicate TextBelow(a: string, b: string) {
    b != [] && (a == [] || a[0] < b[0] || (a[0] == b[0] && TextBelow(a[1..], b[1..])))
  }

  function Rank(v: Value): nat {
    match v
    case Null => 0
    case Bool(_) => 1
    case Num(_) => 2
    case Text(_) => 3
    case Json(_) => 4
  }

  predicate SameType(a: Value, b: Value) { Rank(a) == Rank(b) }

  /** The strict order of values, None lowest, as MongoDB sorts it. */
  predicate Below(a: Value, b: Value) {
    || Rank(a) < Rank(b)
    || (Rank(a) == Rank(b) &&
        match a
        case Null => false
        case Bool(x) => !x && b.b
        case Num(x) => x < b.n
        case Text(x) => TextBelow(x, b.s)
        case Json(x) => TextBelow(x, b.j))
  }

  lemma {:induction false} TextBelowTotal(a: string, b: string)
    ensures a != b ==> TextBelow(a, b) || TextBelow(b, a)
    ensures !(TextBelow(a, b) && TextBelow(b, a))
    ensures !TextBelow(a, a)
  {
    if a != [] {
      TextBelowTotal(a[1..], a[1..]);
      if b != [] {
        TextBelowTotal(a[1..], b[1..]);
        assert a == [a[0]] + a[1..] && b == [b[0]] + b[1..];
      }
    }
  }

  lemma {:induction false} TextBelowTransitive(a: string, b: string, c: string)
    requires TextBelow(a, b) && TextBelow(b, c)
    ensures TextBelow(a, c)
  {
    if a != [] && a[0] == b[0] == c[0] {
      TextBelowTransitive(a[1..], b[1..], c[1..]);
    }
  }

  /** Values are totally ordered: of two different ones exactly one is below the other. */
  lemma BelowTotal(a: Value, b: Value)
    ensures a != b <==> Below(a, b) || Below(b, a)
    ensures !(Below(a, b) && Below(b, a))
  {
    match a
    case Text(x) => if b.Text? { TextBelowTotal(x, b.s); }
    case Json(x) => if b.Json? { TextBelowTotal(x, b.j); }
    case _ =>
  }

  lemma BelowTransitive(a: Value, b: Value, c: Value)
    requires Below(a, b) && Below(b, c)
    ensures Below(a, c)
  {
    match a
    case Text(x) => if b.Text? && c.Text? { TextBelowTransitive(x, b.s, c.s); }
    case Json(x) => if b.Json? && c.Json? { TextBelowTransitive(x, b.j, c.j); }
    case _ =>
  }
}
