/** _parse_date: split a text date on '-' and convert each piece with int(),
    together with the zero-padded ISO formatting it inverts. */
module DateParse {
  import opened Wrappers
  import opened Calendar

  /** str.split(sep): the pieces between separators, always at least one. */
  function Split(s: string, sep: char): (parts: seq<string>)
    ensures |parts| >= 1
    ensures forall i :: 0 <= i < |parts| ==> sep !in parts[i]
    ensures Join(parts, sep) == s
  {
    if s == [] then [[]]
    else
      var rest := Split(s[1..], sep);
      if s[0] == sep then [[]] + rest
      else
        var parts := [[s[0]] + rest[0]] + rest[1..];
        assert s == [s[0]] + s[1..];
        assert |rest| > 1 ==> rest == [rest[0]] + rest[1..];
        parts
  }

  /** sep.join(parts) */
  function Join(parts: seq<string>, sep: char): string
    requires |parts| >= 1
  {
    if |parts| == 1 then parts[0] else parts[0] + [sep] + Join(parts[1..], sep)
  }

  lemma {:induction false} SplitPrefix(p: string, t: string, sep: char)
    requires sep !in p
    ensures Split(p + t, sep) == [p + Split(t, sep)[0]] + Split(t, sep)[1..]
  {
    if p != [] {
      var st := Split(t, sep);
      assert (p + t)[0] == p[0] && p[0] != sep;
      assert (p + t)[1..] == p[1..] + t;
      SplitPrefix(p[1..], t, sep);
      var rest := Split(p[1..] + t, sep);
      assert rest[0] == p[1..] + st[0] && rest[1..] == st[1..];
      assert [p[0]] + rest[0] == p + st[0];
    } else {
      var st := Split(t, sep);
      assert p + t == t && p + st[0] == st[0];
      assert st == [st[0]] + st[1..];
    }
  }

  /** Splitting undoes joining when no piece holds the separator. */
  lemma {:induction false} SplitJoin(parts: seq<string>, sep: char)
    requires |parts| >= 1
    requires forall i :: 0 <= i < |parts| ==> sep !in parts[i]
    ensures Split(Join(parts, sep), sep) == parts
  {
    if |parts| == 1 {
      SplitSingle(parts[0], sep);
    } else {
      var head, tail := parts[0], Join(parts[1..], sep);
      SplitJoin(parts[1..], sep);
      SplitJoinStep(head, tail, parts[1..], sep);
      assert parts == [head] + parts[1..];
    }
  }

  lemma SplitSingle(p: string, sep: char)
    requires sep !in p
    ensures Split(Join([p], sep), sep) == [p]
  {
    SplitPrefix(p, [], sep);
    assert p + [] == p;
  }

  /** One more separator-free piece in front of a join splits off as one more piece. */
  lemma SplitJoinStep(head: string, tail: string, rest: seq<string>, sep: char)
    requires sep !in head && Split(tail, sep) == rest
    ensures Split(head + ([sep] + tail), sep) == [head] + rest
  {
    SplitSeparatorFirst(tail, sep);
    SplitPrefix(head, [sep] + tail, sep);
    assert head + [] == head;
  }

  lemma SplitSeparatorFirst(t: string, sep: char)
    ensures Split([sep] + t, sep) == [[]] + Split(t, sep)
  {
    assert ([sep] + t)[1..] == t;
  }

  predicate IsDigit(c: char) {
    '0' <= c <= '9'
  }

  predicate AllDigits(s: string) {
    forall i :: 0 <= i < |s| ==> IsDigit(s[i])
  }

  function DigitValue(c: char): nat
    requires IsDigit(c)
  {
    c as int - '0' as int
  }

  function DigitChar(n: nat): (c: char)
    requires n < 10
    ensures IsDigit(c) && DigitValue(c) == n
  {
    ('0' as int + n) as char
  }

  /** The value of a string of decimal digits, leading zeros allowed. */
  function DecimalValue(s: string): nat
    requires AllDigits(s)
  {
    if s == [] then 0 else DecimalValue(s[..|s| - 1]) * 10 + DigitValue(s[|s| - 1])
  }

  /** A piece int() accepts: a non-empty run of decimal digits. */
  predicate IsNumeral(piece: string) {
    piece != [] && AllDigits(piece)
  }

  /** int(piece) on a piece that holds no '-': an empty or non-digit piece is a ValueError. */
  function ParseInt(piece: string): (r: Result<int>)
    ensures r.Ok? <==> IsNumeral(piece)
    ensures r.Ok? ==> r.value >= 0 && r.value == DecimalValue(piece)
    ensures r.Err? ==> r.error == ValueError
  {
    if IsNumeral(piece) then Ok(DecimalValue(piece)) else Err(ValueError)
  }

  /** tuple(int(i) for i in pieces) */
  function ParseAll(pieces: seq<string>): (r: Result<seq<int>>)
    ensures r.Ok? <==> forall i :: 0 <= i < |pieces| ==> ParseInt(pieces[i]).Ok?
    ensures r.Ok? ==> |r.value| == |pieces|
    ensures r.Ok? ==> forall i :: 0 <= i < |pieces| ==> r.value[i] == ParseInt(pieces[i]).value
    ensures r.Err? ==> r.error == ValueError
  {
    if pieces == [] then Ok([])
    else match ParseInt(pieces[0])
      case Err(e) => Err(e)
      case Ok(n) =>
        match ParseAll(pieces[1..])
        case Err(e) => Err(e)
        case Ok(ns) => Ok([n] + ns)
  }

  /** _parse_date(text): a triple of numbers for "2004-08-30"; any number of
      pieces in general, each converted with int(). */
  function ParseDate(text: string): (r: Result<seq<int>>)
    ensures r.Ok? ==> forall i :: 0 <= i < |Split(text, '-')| ==> IsNumeral(Split(text, '-')[i])
    ensures (forall i :: 0 <= i < |Split(text, '-')| ==> IsNumeral(Split(text, '-')[i])) ==> r.Ok?
    ensures r.Ok? ==> |r.value| == |Split(text, '-')| >= 1
    ensures r.Ok? ==> forall i :: 0 <= i < |r.value| ==> r.value[i] >= 0 && r.value[i] == DecimalValue(Split(text, '-')[i])
    ensures r.Err? ==> r.error == ValueError
  {
    var pieces := Split(text, '-');
    var r := ParseAll(pieces);
    assert r.Ok? ==> forall i :: 0 <= i < |pieces| ==> IsNumeral(pieces[i]) by {
      if r.Ok? {
        forall i | 0 <= i < |pieces| ensures IsNumeral(pieces[i]) {
          assert ParseInt(pieces[i]).Ok?;
        }
      }
    }
    assert (forall i :: 0 <= i < |pieces| ==> IsNumeral(pieces[i])) ==> r.Ok? by {
      if forall i :: 0 <= i < |pieces| ==> IsNumeral(pieces[i]) {
        forall i | 0 <= i < |pieces| ensures ParseInt(pieces[i]).Ok? {
        }
      }
    }
    r
  }

  /** The shortest decimal spelling of n. */
  function Decimal(n: nat): (s: string)
    ensures |s| >= 1 && AllDigits(s)
  {
    if n < 10 then [DigitChar(n)] else Decimal(n / 10) + [DigitChar(n % 10)]
  }

  function Zeros(k: nat): (s: string)
    ensures |s| == k && AllDigits(s)
  {
    if k == 0 then [] else ['0'] + Zeros(k - 1)
  }

  /** "%0<width>d" % n */
  function ZeroPad(n: nat, width: nat): (s: string)
    ensures |s| >= 1 && AllDigits(s)
  {
    var digits := Decimal(n);
    if |digits| >= width then digits else Zeros(width - |digits|) + digits
  }

  /** date.isoformat(): "%04d-%02d-%02d". */
  function IsoFormat(d: Date): string
    requires ValidDate(d)
  {
    ZeroPad(d.year, 4) + "-" + ZeroPad(d.month, 2) + "-" + ZeroPad(d.day, 2)
  }

  lemma {:induction false} DecimalRoundTrip(n: nat)
    ensures DecimalValue(Decimal(n)) == n
  {
    if n >= 10 {
      DecimalRoundTrip(n / 10);
      var s := Decimal(n);
      assert s[..|s| - 1] == Decimal(n / 10);
    }
  }

  /** Leading zeros do not change a decimal value. */
  lemma {:induction false} LeadingZeros(k: nat, s: string)
    requires AllDigits(s)
    ensures DecimalValue(Zeros(k) + s) == DecimalValue(s)
    decreases k, |s|
  {
    if s == [] {
      assert Zeros(k) + s == Zeros(k);
      if k > 0 {
        assert Zeros(k)[..k - 1] == Zeros(k - 1) by {
          ZerosAt(k);
        }
        LeadingZeros(k - 1, []);
        assert Zeros(k - 1) + [] == Zeros(k - 1);
      }
    } else {
      var t := Zeros(k) + s;
      assert t[..|t| - 1] == Zeros(k) + s[..|s| - 1];
      LeadingZeros(k, s[..|s| - 1]);
    }
  }

  lemma {:induction false} ZerosAt(k: nat)
    requires k > 0
    ensures Zeros(k) == Zeros(k - 1) + ['0']
  {
    if k > 1 {
      ZerosAt(k - 1);
    }
  }

  lemma ZeroPadValue(n: nat, width: nat)
    ensures DecimalValue(ZeroPad(n, width)) == n
  {
    var digits := Decimal(n);
    DecimalRoundTrip(n);
    if |digits| < width {
      assert ZeroPad(n, width) == Zeros(width - |digits|) + digits;
      LeadingZeros(width - |digits|, digits);
    } else {
      assert ZeroPad(n, width) == digits;
    }
  }

  lemma DigitsHaveNoDash(s: string)
    requires AllDigits(s)
    ensures '-' !in s
  {
  }

  /** Three pieces without '-' joined by '-' split back into those pieces. */
  lemma SplitThree(a: string, b: string, c: string)
    requires '-' !in a && '-' !in b && '-' !in c
    ensures Split(a + "-" + b + "-" + c, '-') == [a, b, c]
  {
    assert Join([a, b, c], '-') == a + "-" + b + "-" + c by {
      assert Join([a, b, c][1..], '-') == b + "-" + c by {
        assert [a, b, c][1..] == [b, c];
        assert Join([b, c][1..], '-') == c by {
          assert [b, c][1..] == [c];
        }
      }
    }
    SplitJoin([a, b, c], '-');
  }

  /** Three numerals convert to their three values. */
  lemma ParseAllThree(a: string, b: string, c: string)
    requires IsNumeral(a) && IsNumeral(b) && IsNumeral(c)
    ensures ParseAll([a, b, c]) == Ok([DecimalValue(a), DecimalValue(b), DecimalValue(c)])
  {
    var x, y, z := DecimalValue(a), DecimalValue(b), DecimalValue(c);
    assert [c][1..] == [];
    assert [z] + [] == [z];
    assert ParseAll([c]) == Ok([z]);
    assert [b, c][1..] == [c];
    assert [y] + [z] == [y, z];
    assert ParseAll([b, c]) == Ok([y, z]);
    assert [a, b, c][1..] == [b, c];
    assert [x] + [y, z] == [x, y, z];
  }

  /** Three numerals joined by '-' parse to their three values. */
  lemma ParseThreePieces(a: string, b: string, c: string)
    requires IsNumeral(a) && IsNumeral(b) && IsNumeral(c)
    ensures ParseDate(a + "-" + b + "-" + c) == Ok([DecimalValue(a), DecimalValue(b), DecimalValue(c)])
  {
    DigitsHaveNoDash(a);
    DigitsHaveNoDash(b);
    DigitsHaveNoDash(c);
    SplitThree(a, b, c);
    ParseAllThree(a, b, c);
  }

  /** _parse_date inverts date.isoformat(), and date(*fields) rebuilds the date. */
  lemma ParseIsoFormat(d: Date)
    requires ValidDate(d)
    ensures ParseDate(IsoFormat(d)) == Ok([d.year, d.month, d.day])
    ensures DateFromFields(ParseDate(IsoFormat(d)).value) == Ok(d)
  {
    ZeroPadValue(d.year, 4);
    ZeroPadValue(d.month, 2);
    ZeroPadValue(d.day, 2);
    ParseThreePieces(ZeroPad(d.year, 4), ZeroPad(d.month, 2), ZeroPad(d.day, 2));
  }

  /** Any piece that is empty or holds a non-digit makes the whole parse fail. */
  lemma BadPieceRaises(text: string, i: int)
    requires 0 <= i < |Split(text, '-')|
    requires Split(text, '-')[i] == [] || !AllDigits(Split(text, '-')[i])
    ensures ParseDate(text) == Err(ValueError)
  {
    assert !ParseInt(Split(text, '-')[i]).Ok?;
  }

  lemma ParseExample()
    ensures ParseDate("2004-08-30") == Ok([2004, 8, 30])
  {
    ParseIsoFormat(Date(2004, 8, 30));
    assert IsoFormat(Date(2004, 8, 30)) == "2004-08-30";
  }
}
