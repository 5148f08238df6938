// Python's text forms of the values the labels and dictionary keys carry:
// `str` of integers, lists and tuples, `int()` of a decimal string,
// `str.split` on one separator, and `ast.literal_eval` of the canonical
// list, tuple and integer forms that `str` produces.

module PyText {
  import opened Common

  predicate IsDigit(c: char)
  {
    '0' <= c <= '9'
  }

  predicate AllDigits(s: string)
  {
    forall i :: 0 <= i < |s| ==> IsDigit(s[i])
  }

  function Digit(d: nat): (c: char)
    requires d < 10
    ensures IsDigit(c)
  {
    ('0' as int + d) as char
  }

  /** `str(n)` for n >= 0: decimal digits, no leading zero. */
  function NatText(n: nat): (s: string)
    ensures s != [] && AllDigits(s)
    decreases n
  {
    if n < 10 then [Digit(n)] else NatText(n / 10) + [Digit(n % 10)]
  }

  /** The number a string of decimal digits denotes. */
  function DigitsValue(s: string): nat
    requires AllDigits(s)
  {
    if s == [] then 0 else DigitsValue(s[..|s| - 1]) * 10 + (s[|s| - 1] as int - '0' as int)
  }

  lemma {:induction false} NatTextValue(n: nat)
    ensures DigitsValue(NatText(n)) == n
    ensures |NatText(n)| > 1 ==> NatText(n)[0] != '0'
    decreases n
  {
    if n >= 10 {
      NatTextValue(n / 10);
      var s := NatText(n);
      assert s[..|s| - 1] == NatText(n / 10);
    }
  }

  /** `str(i)` */
  function IntText(i: int): string
  {
    if i < 0 then "-" + NatText(-i) else NatText(i)
  }

  /** `int(s)` restricted to an optional sign followed by ASCII decimal
      digits; anything else is ValueError here. Python's `int` also accepts
      surrounding whitespace and underscores between digits, which the
      text this model reads never contains. */
  function ParseInt(s: string): Result<int>
  {
    var negative := s != [] && s[0] == '-';
    var body := if s != [] && (s[0] == '-' || s[0] == '+') then s[1..] else s;
    if body == [] || !AllDigits(body) then Err(ValueError)
    else
      var magnitude: int := DigitsValue(body);
      Ok(if negative then -magnitude else magnitude)
  }

  /** `int(str(i)) == i` */
  lemma ParseIntText(i: int)
    ensures ParseInt(IntText(i)) == Ok(i)
  {
    var m := if i < 0 then -i else i;
    NatTextValue(m);
    if i < 0 {
      ParseNegative(NatText(m));
    } else {
      ParseUnsigned(NatText(m));
    }
  }

  lemma ParseUnsigned(d: string)
    requires d != [] && AllDigits(d)
    ensures ParseInt(d) == Ok(DigitsValue(d))
  {
    assert IsDigit(d[0]);
  }

  lemma ParseNegative(d: string)
    requires d != [] && AllDigits(d)
    ensures ParseInt("-" + d) == Ok(-(DigitsValue(d) as int))
  {
    assert ("-" + d)[1..] == d;
  }

  // ----- str.split -----

  /** `s.split(sep)`: the pieces between separators, one more than there are
      separators. */
  function Split(s: string, sep: char): (r: seq<string>)
    ensures |r| >= 1
  {
    if s == [] then [""]
    else if s[0] == sep then [""] + Split(s[1..], sep)
    else
      var t := Split(s[1..], sep);
      [[s[0]] + t[0]] + t[1..]
  }

  lemma {:induction false} SplitPlain(a: string, sep: char)
    requires sep !in a
    ensures Split(a, sep) == [a]
  {
    if a != [] {
      SplitPlain(a[1..], sep);
      assert [a[0]] + a[1..] == a;
    }
  }

  /** Text without the separator, then the separator, splits off as the
      first piece. */
  lemma {:induction false} SplitConcat(a: string, b: string, sep: char)
    requires sep !in a
    ensures Split(a + [sep] + b, sep) == [a] + Split(b, sep)
  {
    if a == [] {
      assert a + [sep] + b == [sep] + b;
    } else {
      SplitConcat(a[1..], b, sep);
      assert (a + [sep] + b)[1..] == a[1..] + [sep] + b;
      assert [a[0]] + a[1..] == a;
    }
  }

  // ----- literal values -----

  /** The literals a label or a dictionary key holds: integers, lists and
      tuples of them. */
  datatype Py = PInt(i: int) | PList(items: seq<Py>) | PTuple(items: seq<Py>)

  /** `", ".join(parts)` */
  function Join(parts: seq<string>): string
  {
    if parts == [] then "" else if |parts| == 1 then parts[0] else parts[0] + ", " + Join(parts[1..])
  }

  /** `str(v)`: "[1, 2]", "(1, 2)", "(1,)", "()". */
  function Repr(v: Py): string
    decreases v
  {
    match v
    case PInt(i) => IntText(i)
    case PList(items) => "[" + Join(seq(|items|, k requires 0 <= k < |items| => Repr(items[k]))) + "]"
    case PTuple(items) =>
      if |items| == 1 then "(" + Repr(items[0]) + ",)"
      else "(" + Join(seq(|items|, k requires 0 <= k < |items| => Repr(items[k]))) + ")"
  }

  function Reprs(items: seq<Py>): seq<string>
  {
    seq(|items|, k requires 0 <= k < |items| => Repr(items[k]))
  }

  function Ints(xs: seq<int>): seq<Py>
  {
    seq(|xs|, k requires 0 <= k < |xs| => PInt(xs[k]))
  }

  /** `str(list_of_ints)` */
  function ListText(xs: seq<int>): string
  {
    Repr(PList(Ints(xs)))
  }

  /** `str(tuple_of_ints)` */
  function TupleText(xs: seq<int>): string
  {
    Repr(PTuple(Ints(xs)))
  }

  /** The length of the run of digits that starts s. */
  function DigitRun(s: string): (n: nat)
    ensures n <= |s| && AllDigits(s[..n]) && (n < |s| ==> !IsDigit(s[n]))
  {
    if s == [] || !IsDigit(s[0]) then 0
    else
      var n := 1 + DigitRun(s[1..]);
      assert s[..n] == [s[0]] + s[1..][..n - 1];
      n
  }

  /** Digits at the start of t, "0" or without a leading zero, and the
      number they denote. */
  function ParseDigits(t: string): (r: Option<(nat, string)>)
    ensures r.Some? ==> |r.value.1| < |t|
  {
    var n := DigitRun(t);
    if n == 0 || (n > 1 && t[0] == '0') then None
    else Some((DigitsValue(t[..n]), t[n..]))
  }

  /** An integer literal at the start of s: an optional minus sign, then
      digits as above. */
  function ParseIntToken(s: string): (r: Option<(int, string)>)
    ensures r.Some? ==> |r.value.1| < |s|
  {
    var negative := s != [] && s[0] == '-';
    match ParseDigits(if negative then s[1..] else s)
    case None => None
    case Some((magnitude, rest)) => Some((if negative then -(magnitude as int) else magnitude as int, rest))
  }

  /** A literal at the start of s and the text after it. */
  function ParseValue(s: string): (r: Option<(Py, string)>)
    ensures r.Some? ==> |r.value.1| < |s|
    decreases |s|, 1
  {
    if s == [] then None
    else if s[0] == '[' then
      if |s| > 1 && s[1] == ']' then Some((PList([]), s[2..]))
      else
        match ParseTail(s[1..], ']')
        case None => None
        case Some((items, rest)) => Some((PList(items), rest))
    else if s[0] == '(' then
      if |s| > 1 && s[1] == ')' then Some((PTuple([]), s[2..]))
      else
        match ParseValue(s[1..])
        case None => None
        case Some((x, rest)) =>
          if |rest| >= 2 && rest[..2] == ",)" then Some((PTuple([x]), rest[2..]))
          else if |rest| >= 2 && rest[..2] == ", " then
            match ParseTail(rest[2..], ')')
            case None => None
            case Some((xs, rest')) => Some((PTuple([x] + xs), rest'))
          else None
    else
      match ParseIntToken(s)
      case None => None
      case Some((i, rest)) => Some((PInt(i), rest))
  }

  /** Items separated by ", " up to the closing bracket. */
  function ParseTail(s: string, close: char): (r: Option<(seq<Py>, string)>)
    ensures r.Some? ==> |r.value.1| < |s|
    decreases |s|, 2
  {
    match ParseValue(s)
    case None => None
    case Some((x, rest)) =>
      if rest != [] && rest[0] == close then Some(([x], rest[1..]))
      else if |rest| >= 2 && rest[..2] == ", " then
        match ParseTail(rest[2..], close)
        case None => None
        case Some((xs, rest')) => Some(([x] + xs, rest'))
      else None
  }

  /** `ast.literal_eval(s)` on the literal forms above: the whole string
      must be one literal. */
  function LiteralEval(s: string): Result<Py>
  {
    match ParseValue(s)
    case Some((v, rest)) => if rest == [] then Ok(v) else Err(SyntaxError)
    case None => Err(SyntaxError)
  }

  // ----- literal_eval(str(v)) == v -----

  /** Text that cannot continue an integer literal. */
  predicate Separated(rest: string)
  {
    rest == [] || !IsDigit(rest[0])
  }

  /** A literal's text starts with a digit, a minus sign or an opening
      bracket. */
  lemma ReprStart(v: Py)
    ensures Repr(v) != [] && (IsDigit(Repr(v)[0]) || Repr(v)[0] in "-[(")
  {
  }

  lemma IntRoundTrip(i: int, rest: string)
    requires Separated(rest)
    ensures ParseIntToken(IntText(i) + rest) == Some((i, rest))
  {
    var m := if i < 0 then -i else i;
    var t := NatText(m) + rest;
    DigitsRoundTrip(m, rest);
    if i < 0 {
      assert IntText(i) + rest == "-" + t;
      assert ("-" + t)[1..] == t;
    } else {
      assert t[0] == NatText(m)[0];
    }
  }

  /** The digits of `str(n)` followed by text that cannot continue them. */
  lemma DigitsRoundTrip(m: nat, rest: string)
    requires Separated(rest)
    ensures ParseDigits(NatText(m) + rest) == Some((m, rest))
  {
    var digits := NatText(m);
    NatTextValue(m);
    var t := digits + rest;
    DigitRunPrefix(digits, rest);
    assert t[..|digits|] == digits && t[|digits|..] == rest;
    assert t[0] == digits[0];
  }

  lemma {:induction false} DigitRunPrefix(digits: string, rest: string)
    requires AllDigits(digits) && Separated(rest)
    ensures DigitRun(digits + rest) == |digits|
  {
    if digits != [] {
      DigitRunPrefix(digits[1..], rest);
      assert (digits + rest)[1..] == digits[1..] + rest;
    }
  }

  // One step of the parser each, so that the round trip below never
  // unfolds the whole parser at once.

  /** `", ".join` of the texts of one item, or of several. */
  lemma JoinReprs(items: seq<Py>)
    requires items != []
    ensures |items| == 1 ==> Join(Reprs(items)) == Repr(items[0])
    ensures |items| >= 2 ==> Join(Reprs(items)) == Repr(items[0]) + ", " + Join(Reprs(items[1..]))
  {
    if |items| >= 2 {
      assert Reprs(items)[1..] == Reprs(items[1..]);
    }
  }

  /** The last item, followed by the closing bracket. */
  lemma TailOne(s: string, close: char, x: Py, rest: string)
    requires ParseValue(s) == Some((x, [close] + rest))
    ensures ParseTail(s, close) == Some(([x], rest))
  {
    assert ([close] + rest)[1..] == rest;
  }

  /** An item followed by ", " and more items. */
  lemma TailMore(s: string, close: char, x: Py, after: string, xs: seq<Py>, rest: string)
    requires close in "])"
    requires ParseValue(s) == Some((x, ", " + after))
    requires ParseTail(after, close) == Some((xs, rest))
    ensures ParseTail(s, close) == Some(([x] + xs, rest))
  {
    assert (", " + after)[..2] == ", " && (", " + after)[2..] == after;
  }

  /** A list that is not empty. */
  lemma ListOpen(body: string, xs: seq<Py>, rest: string)
    requires body != [] && body[0] != ']'
    requires ParseTail(body, ']') == Some((xs, rest))
    ensures ParseValue("[" + body) == Some((PList(xs), rest))
  {
    assert ("[" + body)[1..] == body;
  }

  /** A tuple of one item, written with the trailing comma. */
  lemma TupleOne(body: string, x: Py, rest: string)
    requires body != [] && body[0] != ')'
    requires ParseValue(body) == Some((x, ",)" + rest))
    ensures ParseValue("(" + body) == Some((PTuple([x]), rest))
  {
    assert ("(" + body)[1..] == body;
    assert (",)" + rest)[..2] == ",)" && (",)" + rest)[2..] == rest;
  }

  /** A tuple of two items or more. */
  lemma TupleMore(body: string, x: Py, after: string, xs: seq<Py>, rest: string)
    requires body != [] && body[0] != ')'
    requires ParseValue(body) == Some((x, ", " + after))
    requires ParseTail(after, ')') == Some((xs, rest))
    ensures ParseValue("(" + body) == Some((PTuple([x] + xs), rest))
  {
    assert ("(" + body)[1..] == body;
    assert (", " + after)[..2] == ", " && (", " + after)[2..] == after;
    assert (", " + after)[..2] != ",)";
  }

  /** `ast.literal_eval` reads back what `str` writes, whatever follows
      that cannot continue the literal. */
  lemma {:induction false} ValueRoundTrip(v: Py, rest: string)
    requires Separated(rest)
    ensures ParseValue(Repr(v) + rest) == Some((v, rest))
    decreases v, 3, 0
  {
    match v
    case PInt(i) =>
      IntRoundTrip(i, rest);
      ReprStart(v);
    case PList(items) =>
      ListRoundTrip(v, rest);
    case PTuple(items) =>
      TupleRoundTrip(v, rest);
  }

  lemma {:induction false} ListRoundTrip(v: Py, rest: string)
    requires v.PList? && Separated(rest)
    ensures ParseValue(Repr(v) + rest) == Some((v, rest))
    decreases v, 2, 0
  {
    var items := v.items;
    if items == [] {
      assert Repr(v) + rest == "[]" + rest;
    } else {
      var joined := Join(Reprs(items));
      var body := joined + "]" + rest;
      ReprOpen(v);
      Regroup3("[", joined, "]", rest);
      JoinReprs(items);
      ReprStart(items[0]);
      HeadOf(Repr(items[0]), if |items| == 1 then "]" + rest else ", " + Join(Reprs(items[1..])) + "]" + rest);
      TailRoundTrip(v, items, ']', rest);
      ListOpen(body, items, rest);
    }
  }

  /** A list, or a tuple of other than one item, is its items joined and
      bracketed. */
  lemma ReprOpen(v: Py)
    requires v.PList? || (v.PTuple? && |v.items| != 1)
    ensures Repr(v) == (if v.PList? then "[" else "(") + Join(Reprs(v.items)) + (if v.PList? then "]" else ")")
  {
  }

  lemma Regroup3(a: string, b: string, c: string, d: string)
    ensures a + b + c + d == a + (b + c + d)
  {
  }

  lemma RegroupPairs(o: string, a: string, b: string, c: string, d: string)
    ensures o + (a + ", " + b) + c + d == o + (a + (", " + (b + c + d)))
  {
  }

  lemma HeadOf(a: string, b: string)
    requires a != []
    ensures (a + b)[0] == a[0]
  {
  }

  lemma {:induction false} TupleRoundTrip(v: Py, rest: string)
    requires v.PTuple? && Separated(rest)
    ensures ParseValue(Repr(v) + rest) == Some((v, rest))
    decreases v, 2, 0
  {
    if v.items == [] {
      assert Repr(v) + rest == "()" + rest;
    } else if |v.items| == 1 {
      SingletonRoundTrip(v, rest);
    } else {
      PairsRoundTrip(v, rest);
    }
  }

  lemma {:induction false} SingletonRoundTrip(v: Py, rest: string)
    requires v.PTuple? && |v.items| == 1 && Separated(rest)
    ensures ParseValue(Repr(v) + rest) == Some((v, rest))
    decreases v, 1, 0
  {
    var x := v.items[0];
    var body := Repr(x) + (",)" + rest);
    assert Repr(v) + rest == "(" + body;
    ReprStart(x);
    assert body[0] == Repr(x)[0];
    ValueRoundTrip(x, ",)" + rest);
    TupleOne(body, x, rest);
    assert [x] == v.items;
  }

  lemma {:induction false} PairsRoundTrip(v: Py, rest: string)
    requires v.PTuple? && |v.items| >= 2 && Separated(rest)
    ensures ParseValue(Repr(v) + rest) == Some((v, rest))
    decreases v, 1, 0
  {
    var items := v.items;
    var x := items[0];
    var after := Join(Reprs(items[1..])) + ")" + rest;
    var body := Repr(x) + (", " + after);
    JoinReprs(items);
    ReprOpen(v);
    RegroupPairs("(", Repr(x), Join(Reprs(items[1..])), ")", rest);
    ReprStart(x);
    HeadOf(Repr(x), ", " + after);
    ValueRoundTrip(x, ", " + after);
    TailRoundTrip(v, items[1..], ')', rest);
    TupleMore(body, x, after, items[1..], rest);
    assert [x] + items[1..] == items;
  }

  /** The items of a list or tuple, joined by ", " and closed. */
  lemma {:induction false} TailRoundTrip(parent: Py, items: seq<Py>, close: char, rest: string)
    requires items != [] && close in "])" && Separated(rest)
    requires forall k :: 0 <= k < |items| ==> items[k] < parent
    ensures ParseTail(Join(Reprs(items)) + [close] + rest, close) == Some((items, rest))
    decreases parent, 0, |items|
  {
    var x := items[0];
    var text := Repr(x);
    JoinReprs(items);
    if |items| == 1 {
      Regroup(text, [close], rest);
      ValueRoundTrip(x, [close] + rest);
      TailOne(text + ([close] + rest), close, x, rest);
      assert [x] == items;
    } else {
      var more := Join(Reprs(items[1..]));
      var after := more + [close] + rest;
      RegroupTail(text, more, [close], rest);
      ValueRoundTrip(x, ", " + after);
      TailRoundTrip(parent, items[1..], close, rest);
      TailMore(text + (", " + after), close, x, after, items[1..], rest);
      assert [x] + items[1..] == items;
    }
  }

  lemma Regroup(a: string, b: string, c: string)
    ensures a + b + c == a + (b + c)
  {
  }

  lemma RegroupTail(a: string, b: string, c: string, d: string)
    ensures a + ", " + b + c + d == a + (", " + (b + c + d))
  {
  }


  /** `ast.literal_eval(str(v)) == v` */
  lemma LiteralEvalRepr(v: Py)
    ensures LiteralEval(Repr(v)) == Ok(v)
  {
    ValueRoundTrip(v, "");
    assert Repr(v) + "" == Repr(v);
  }

  // ----- text without a minus sign -----

  /** Every integer in the literal is non-negative. */
  predicate NonNegative(v: Py)
    decreases v
  {
    match v
    case PInt(i) => i >= 0
    case PList(items) => forall k :: 0 <= k < |items| ==> NonNegative(items[k])
    case PTuple(items) => forall k :: 0 <= k < |items| ==> NonNegative(items[k])
  }

  lemma {:induction false} JoinNoMinus(parts: seq<string>)
    requires forall k :: 0 <= k < |parts| ==> '-' !in parts[k]
    ensures '-' !in Join(parts)
  {
    if |parts| > 1 {
      JoinNoMinus(parts[1..]);
    }
  }

  lemma NatTextNoMinus(n: nat)
    ensures '-' !in NatText(n)
  {
    var s := NatText(n);
    forall k | 0 <= k < |s| ensures s[k] != '-' {
      assert IsDigit(s[k]);
    }
  }

  /** The text of a literal of non-negative integers has no '-', so
      splitting a label on '-' keeps it whole. */
  lemma {:induction false} ReprNoMinus(v: Py)
    requires NonNegative(v)
    ensures '-' !in Repr(v)
    decreases v
  {
    match v
    case PInt(i) =>
      NatTextNoMinus(i);
    case PList(items) =>
      forall k | 0 <= k < |items| ensures '-' !in Reprs(items)[k] {
        ReprNoMinus(items[k]);
      }
      JoinNoMinus(Reprs(items));
      assert Repr(v) == "[" + Join(Reprs(items)) + "]";
    case PTuple(items) =>
      forall k | 0 <= k < |items| ensures '-' !in Reprs(items)[k] {
        ReprNoMinus(items[k]);
      }
      JoinNoMinus(Reprs(items));
      if |items| != 1 {
        assert Repr(v) == "(" + Join(Reprs(items)) + ")";
      }
  }
}
