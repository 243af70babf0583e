/** Text helpers used by the emitter: Swift's decimal rendering of an `Int`
    (`String(n)`, `"\(n)"`), its inverse, and splitting a string into the
    words that a separator joins. */
module Text {

  function DigitChar(d: nat): (c: char)
    requires d < 10
    ensures '0' <= c <= '9' && c as int - '0' as int == d
  {
    "0123456789"[d]
  }

  predicate IsDigits(s: string) {
    forall i :: 0 <= i < |s| ==> '0' <= s[i] <= '9'
  }

  /** Decimal digits of a natural number, most significant first, no leading zeros. */
  function NatText(n: nat): (s: string)
    ensures |s| > 0 && IsDigits(s)
    ensures n >= 10 <==> |s| > 1
    decreases n
  {
    if n < 10 then [DigitChar(n)] else NatText(n / 10) + [DigitChar(n % 10)]
  }

  /** Swift's `String(n)` for an `Int`: a minus sign before the digits of a negative number. */
  function IntText(n: int): (s: string)
    ensures |s| > 0
    ensures (s[0] == '-') <==> n < 0
    ensures forall i :: 0 <= i < |s| ==> s[i] != ' ' && s[i] != '\n' && s[i] != ']'
  {
    if n < 0 then "-" + NatText(-n) else NatText(n)
  }

  /** Reads back a string of decimal digits. */
  function ParseNat(s: string): nat
    requires IsDigits(s)
  {
    if s == [] then 0
    else ParseNat(s[..|s| - 1]) * 10 + (s[|s| - 1] as int - '0' as int)
  }

  /** Reads back the text Swift writes for an `Int`. */
  function ParseInt(s: string): int
  {
    if |s| > 0 && s[0] == '-' && IsDigits(s[1..]) then -(ParseNat(s[1..]) as int)
    else if IsDigits(s) then ParseNat(s)
    else 0
  }

  lemma {:induction false} NatTextRoundTrip(n: nat)
    ensures ParseNat(NatText(n)) == n
    decreases n
  {
    if n >= 10 {
      NatTextRoundTrip(n / 10);
      var s := NatText(n);
      assert s[..|s| - 1] == NatText(n / 10);
    }
  }

  /** Text with a leading minus sign is read as the negated digits after it. */
  lemma ParseNegative(s: string)
    requires |s| > 0 && s[0] == '-' && IsDigits(s[1..])
    ensures ParseInt(s) == -(ParseNat(s[1..]) as int)
  {
  }

  /** Digit text is read as the number it spells. */
  lemma ParseDigits(s: string)
    requires |s| > 0 && s[0] != '-' && IsDigits(s)
    ensures ParseInt(s) == ParseNat(s)
  {
  }

  /** The integer text Swift writes is read back as the same integer, so it is injective. */
  lemma IntTextRoundTrip(n: int)
    ensures ParseInt(IntText(n)) == n
  {
    var s := IntText(n);
    if n < 0 {
      NatTextRoundTrip(-n);
      assert s[1..] == NatText(-n);
      ParseNegative(s);
    } else {
      NatTextRoundTrip(n);
      ParseDigits(s);
    }
  }

  lemma IntTextInjective(m: int, n: int)
    requires IntText(m) == IntText(n)
    ensures m == n
  {
    IntTextRoundTrip(m);
    IntTextRoundTrip(n);
  }

  /** Words joined by one separator character. */
  function Join(ws: seq<string>, sep: char): string
  {
    if |ws| == 0 then ""
    else if |ws| == 1 then ws[0]
    else ws[0] + [sep] + Join(ws[1..], sep)
  }

  lemma JoinTwo(a: string, b: string, sep: char)
    ensures Join([a, b], sep) == a + [sep] + b
  {
    assert [a, b][1..] == [b];
  }

  lemma JoinThree(a: string, b: string, c: string, sep: char)
    ensures Join([a, b, c], sep) == a + [sep] + b + [sep] + c
  {
    assert [a, b, c][1..] == [b, c];
    JoinTwo(b, c, sep);
  }

  lemma JoinFour(a: string, b: string, c: string, d: string, sep: char)
    ensures Join([a, b, c, d], sep) == a + [sep] + b + [sep] + c + [sep] + d
  {
    assert [a, b, c, d][1..] == [b, c, d];
    JoinThree(b, c, d, sep);
  }

  lemma JoinCons(w: string, ws: seq<string>, sep: char)
    requires |ws| > 0
    ensures Join([w] + ws, sep) == w + [sep] + Join(ws, sep)
  {
    assert ([w] + ws)[1..] == ws;
  }

  /** Appending to the last word appends to the joined text. */
  lemma {:induction false} JoinLastSuffix(ws: seq<string>, sep: char, t: string)
    requires |ws| > 0
    ensures Join(ws[..|ws| - 1] + [ws[|ws| - 1] + t], sep) == Join(ws, sep) + t
    decreases |ws|
  {
    var ws' := ws[..|ws| - 1] + [ws[|ws| - 1] + t];
    if |ws| > 1 {
      JoinLastSuffix(ws[1..], sep, t);
      assert ws'[1..] == ws[1..][..|ws[1..]| - 1] + [ws[1..][|ws[1..]| - 1] + t];
    }
  }

  /** A word in front and a suffix on the last word put them around the joined text. */
  lemma JoinQualified(q: string, ws: seq<string>, sep: char, t: string)
    requires |ws| > 0
    ensures Join([q] + (ws[..|ws| - 1] + [ws[|ws| - 1] + t]), sep) == q + [sep] + Join(ws, sep) + t
  {
    var ws' := ws[..|ws| - 1] + [ws[|ws| - 1] + t];
    JoinLastSuffix(ws, sep, t);
    JoinCons(q, ws', sep);
    assert q + [sep] + (Join(ws, sep) + t) == q + [sep] + Join(ws, sep) + t;
  }

  /** The pieces between separators; always at least one (possibly empty) piece. */
  function Split(s: string, sep: char): (ws: seq<string>)
    ensures |ws| > 0
  {
    if |s| == 0 then [""]
    else
      var rest := Split(s[1..], sep);
      if s[0] == sep then [""] + rest else [[s[0]] + rest[0]] + rest[1..]
  }

  predicate Free(w: string, sep: char) {
    forall i :: 0 <= i < |w| ==> w[i] != sep
  }

  lemma {:induction false} SplitFree(w: string, sep: char)
    requires Free(w, sep)
    ensures Split(w, sep) == [w]
    decreases |w|
  {
    if |w| > 0 {
      SplitFree(w[1..], sep);
      assert [w[0]] + w[1..] == w;
    }
  }

  lemma {:induction false} SplitAfterWord(w: string, sep: char, t: string)
    requires Free(w, sep)
    ensures Split(w + [sep] + t, sep) == [w] + Split(t, sep)
    decreases |w|
  {
    var s := w + [sep] + t;
    if |w| == 0 {
      assert s[1..] == t;
    } else {
      assert s[1..] == w[1..] + [sep] + t;
      SplitAfterWord(w[1..], sep, t);
      assert [w[0]] + w[1..] == w;
    }
  }

  /** Splitting undoes joining when no word contains the separator. */
  lemma {:induction false} SplitJoin(ws: seq<string>, sep: char)
    requires |ws| > 0
    requires forall k :: 0 <= k < |ws| ==> Free(ws[k], sep)
    ensures Split(Join(ws, sep), sep) == ws
    decreases |ws|
  {
    if |ws| == 1 {
      SplitFree(ws[0], sep);
    } else {
      SplitJoin(ws[1..], sep);
      SplitAfterWord(ws[0], sep, Join(ws[1..], sep));
    }
  }
}
