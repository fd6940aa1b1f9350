/**
 * Formatted input from a character stream, as `operator>>` of the GNU C++
 * library reads it in the "C" locale; src/mazetypes/usermaze.cpp reads its
 * file this way. Every read first skips white space. A read takes only the
 * characters that fit what it reads, so the rest of a word is left for the
 * next read: an `int` read of `3.5` gives 3 and leaves `.5`. A failed read
 * puts the stream in its fail state, after which every read fails; a read
 * here therefore gives either what it extracted and where the stream now
 * stands, or a failure.
 */
module Extraction {
  datatype Extracted<T> = Extracted(value: T, next: nat) | Failed

  /** White space in the "C" locale. */
  predicate IsSpace(c: char)
  {
    c == ' ' || c == '\t' || c == '\n' || c == '\U{B}' || c == '\U{C}' || c == '\r'
  }

  predicate IsDigit(c: char)
  {
    '0' <= c <= '9'
  }

  predicate IsSign(c: char)
  {
    c == '+' || c == '-'
  }

  /** The first position at or after `pos` that is not white space. */
  function SkipSpace(s: seq<char>, pos: nat): (p: nat)
    requires pos <= |s|
    ensures pos <= p <= |s| && (p < |s| ==> !IsSpace(s[p]))
    decreases |s| - pos
  {
    if pos < |s| && IsSpace(s[pos]) then SkipSpace(s, pos + 1) else pos
  }

  /** Only white space is skipped. */
  lemma {:induction false} SkipSpaceSkips(s: seq<char>, pos: nat)
    requires pos <= |s|
    ensures forall k :: pos <= k < SkipSpace(s, pos) ==> IsSpace(s[k])
    decreases |s| - pos
  {
    if pos < |s| && IsSpace(s[pos]) {
      SkipSpaceSkips(s, pos + 1);
    }
  }

  /** The end of the run of decimal digits that starts at `pos`. */
  function DigitsEnd(s: seq<char>, pos: nat): (p: nat)
    requires pos <= |s|
    ensures pos <= p <= |s| && (p < |s| ==> !IsDigit(s[p]))
    decreases |s| - pos
  {
    if pos < |s| && IsDigit(s[pos]) then DigitsEnd(s, pos + 1) else pos
  }

  /** The run holds only digits. */
  lemma {:induction false} DigitsEndDigits(s: seq<char>, pos: nat)
    requires pos <= |s|
    ensures forall k :: pos <= k < DigitsEnd(s, pos) ==> IsDigit(s[k])
    decreases |s| - pos
  {
    if pos < |s| && IsDigit(s[pos]) {
      DigitsEndDigits(s, pos + 1);
    }
  }

  /** The end of the word that starts at `pos`: the next white space or the end of the stream. */
  function WordEnd(s: seq<char>, pos: nat): (p: nat)
    requires pos <= |s|
    ensures pos <= p <= |s| && (p < |s| ==> IsSpace(s[p]))
    ensures pos < |s| && !IsSpace(s[pos]) ==> pos < p
    decreases |s| - pos
  {
    if pos < |s| && !IsSpace(s[pos]) then WordEnd(s, pos + 1) else pos
  }

  /** The word holds no white space. */
  lemma {:induction false} WordEndWord(s: seq<char>, pos: nat)
    requires pos <= |s|
    ensures forall k :: pos <= k < WordEnd(s, pos) ==> !IsSpace(s[k])
    decreases |s| - pos
  {
    if pos < |s| && !IsSpace(s[pos]) {
      WordEndWord(s, pos + 1);
    }
  }

  /** Past an optional sign at `pos`. */
  function SignEnd(s: seq<char>, pos: nat): nat
    requires pos <= |s|
  {
    if pos < |s| && IsSign(s[pos]) then pos + 1 else pos
  }

  /** The value of a run of decimal digits. */
  function Decimal(ds: seq<char>): nat
    requires forall k :: 0 <= k < |ds| ==> IsDigit(ds[k])
  {
    if ds == [] then 0
    else
      assert IsDigit(ds[|ds| - 1]);
      10 * Decimal(ds[..|ds| - 1]) + (ds[|ds| - 1] as int - '0' as int)
  }

  /**
   * `in >> x` into an `int`: after the white space, an optional sign and the
   * longest run of decimal digits; without a digit the read fails. A read
   * that succeeds moves the stream forward.
   */
  function ReadInt(s: seq<char>, pos: nat): (r: Extracted<int>)
    requires pos <= |s|
    ensures r.Extracted? ==> pos < r.next <= |s|
  {
    var p := SkipSpace(s, pos);
    var q := SignEnd(s, p);
    var e := DigitsEnd(s, q);
    if e == q then Failed
    else
      DigitsEndDigits(s, q);
      var v: int := Decimal(s[q..e]);
      Extracted(if q > p && s[p] == '-' then -v else v, e)
  }

  /**
   * `in >> x` into a `double`. After the white space the library gathers an
   * optional sign, digits with at most one decimal point and, once a digit
   * has been seen, an `e` or `E` with an optional sign and more digits; it
   * stops at the first character that does not fit. The read succeeds when
   * what it gathered is a whole number for `strtod`: a digit before the
   * exponent, and a digit after an `e`. The value is the text of the number,
   * and a read that succeeds moves the stream forward.
   */
  function ReadDouble(s: seq<char>, pos: nat): (r: Extracted<string>)
    requires pos <= |s|
    ensures r.Extracted? ==> pos < r.next <= |s|
  {
    var p := SkipSpace(s, pos);
    var q := SignEnd(s, p);
    var a := DigitsEnd(s, q);
    var b := if a < |s| && s[a] == '.' then DigitsEnd(s, a + 1) else a;
    if a == q && b <= a + 1 then Failed
    else if b < |s| && (s[b] == 'e' || s[b] == 'E') then
      var c := SignEnd(s, b + 1);
      var d := DigitsEnd(s, c);
      if d == c then Failed else Extracted(s[p..d], d)
    else Extracted(s[p..b], b)
  }

  /** `in >> word` into a `string`: after the white space, the characters up to the next white space; at the end of the stream it fails. */
  function ReadWord(s: seq<char>, pos: nat): (r: Extracted<string>)
    requires pos <= |s|
    ensures r.Extracted? ==> pos < r.next <= |s|
  {
    var p := SkipSpace(s, pos);
    if p == |s| then Failed else Extracted(s[p..WordEnd(s, p)], WordEnd(s, p))
  }

  /**
   * An `int` read fails exactly when no digit follows the white space and the
   * optional sign. One that succeeds reads, past the white space, only a sign
   * and digits, and stops before a character that is not a digit; it gives the
   * value of those digits, negated after a minus sign.
   */
  lemma ReadIntReads(s: seq<char>, pos: nat)
    requires pos <= |s|
    ensures var q := SignEnd(s, SkipSpace(s, pos));
            ReadInt(s, pos).Failed? <==> q == |s| || !IsDigit(s[q])
    ensures ReadInt(s, pos).Extracted? ==>
              var p, r := SkipSpace(s, pos), ReadInt(s, pos);
              (forall k :: pos <= k < p ==> IsSpace(s[k])) &&
              (forall k :: SignEnd(s, p) <= k < r.next ==> IsDigit(s[k])) &&
              (r.next < |s| ==> !IsDigit(s[r.next])) &&
              (r.value < 0 ==> s[p] == '-')
  {
    var p := SkipSpace(s, pos);
    SkipSpaceSkips(s, pos);
    DigitsEndDigits(s, SignEnd(s, p));
  }

  /**
   * A `string` read fails exactly when only white space is left. One that
   * succeeds gives the characters after the white space up to the next white
   * space or the end, none of them white space.
   */
  lemma ReadWordReads(s: seq<char>, pos: nat)
    requires pos <= |s|
    ensures ReadWord(s, pos).Failed? <==> forall k :: pos <= k < |s| ==> IsSpace(s[k])
    ensures ReadWord(s, pos).Extracted? ==>
              var r := ReadWord(s, pos);
              r.value == s[SkipSpace(s, pos)..r.next] && r.value != [] &&
              (forall k :: 0 <= k < |r.value| ==> !IsSpace(r.value[k])) &&
              (r.next < |s| ==> IsSpace(s[r.next]))
  {
    var p := SkipSpace(s, pos);
    SkipSpaceSkips(s, pos);
    if p < |s| {
      WordEndWord(s, p);
    }
  }

  /**
   * A `double` read that succeeds gives the text after the white space up to
   * where it stops: it holds a digit, and the stream stands before a
   * character that is not a digit.
   */
  lemma ReadDoubleReads(s: seq<char>, pos: nat)
    requires pos <= |s|
    ensures ReadDouble(s, pos).Extracted? ==>
              var p, r := SkipSpace(s, pos), ReadDouble(s, pos);
              p < r.next && r.value == s[p..r.next] &&
              (exists k :: p <= k < r.next && IsDigit(s[k])) &&
              (r.next < |s| ==> !IsDigit(s[r.next]))
  {
    var p := SkipSpace(s, pos);
    var q := SignEnd(s, p);
    var a := DigitsEnd(s, q);
    DigitsEndDigits(s, q);
    if a < |s| && s[a] == '.' {
      DigitsEndDigits(s, a + 1);
    }
    if a > q {
      assert IsDigit(s[q]);
    } else if a < |s| && s[a] == '.' && DigitsEnd(s, a + 1) > a + 1 {
      assert IsDigit(s[a + 1]);
    }
  }

  /** The decimal digit of `d`. */
  function Digit(d: nat): char
    requires d < 10
  {
    ('0' as int + d) as char
  }

  /** `n` written in decimal, as `operator<<` writes it. */
  function Shown(n: nat): (ds: string)
    ensures ds != [] && forall k :: 0 <= k < |ds| ==> IsDigit(ds[k])
  {
    if n < 10 then [Digit(n)] else Shown(n / 10) + [Digit(n % 10)]
  }

  /** `n` written in decimal, with a minus sign when it is negative. */
  function Show(n: int): string
  {
    if n < 0 then "-" + Shown(-n) else Shown(n)
  }

  /** Reading the digits of `n` gives `n` back. */
  lemma {:induction false} DecimalShown(n: nat)
    ensures Decimal(Shown(n)) == n
  {
    if n >= 10 {
      var ds := Shown(n);
      assert ds[..|ds| - 1] == Shown(n / 10);
      DecimalShown(n / 10);
    }
  }

  /** A run of digits from `pos` to `e` that stops at `e` is the run `DigitsEnd` finds. */
  lemma {:induction false} DigitsEndAt(s: seq<char>, pos: nat, e: nat)
    requires pos <= e <= |s| && forall k :: pos <= k < e ==> IsDigit(s[k])
    requires e < |s| ==> !IsDigit(s[e])
    ensures DigitsEnd(s, pos) == e
    decreases e - pos
  {
    if pos < e {
      DigitsEndAt(s, pos + 1, e);
    }
  }

  /** White space from `pos` up to `e`, and none at `e`, is what `SkipSpace` skips. */
  lemma {:induction false} SkipSpaceAt(s: seq<char>, pos: nat, e: nat)
    requires pos <= e <= |s| && forall k :: pos <= k < e ==> IsSpace(s[k])
    requires e < |s| ==> !IsSpace(s[e])
    ensures SkipSpace(s, pos) == e
    decreases e - pos
  {
    if pos < e {
      SkipSpaceAt(s, pos + 1, e);
    }
  }

  /** A word from `pos` up to white space or the end at `e` is the word `WordEnd` finds. */
  lemma {:induction false} WordEndAt(s: seq<char>, pos: nat, e: nat)
    requires pos <= e <= |s| && forall k :: pos <= k < e ==> !IsSpace(s[k])
    requires e < |s| ==> IsSpace(s[e])
    ensures WordEnd(s, pos) == e
    decreases e - pos
  {
    if pos < e {
      WordEndAt(s, pos + 1, e);
    }
  }

  /** The text `w` stands in `s` at `start`. */
  predicate At(s: seq<char>, start: nat, w: string)
  {
    start + |w| <= |s| && s[start..start + |w|] == w
  }

  /**
   * Writing an `int` after white space and reading it back gives the same
   * number, provided what follows it is not a digit: the read stops there.
   */
  lemma ReadIntShow(s: seq<char>, pos: nat, start: nat, n: int)
    requires pos <= start <= |s| && forall k :: pos <= k < start ==> IsSpace(s[k])
    requires At(s, start, Show(n))
    requires start + |Show(n)| < |s| ==> !IsDigit(s[start + |Show(n)|])
    ensures ReadInt(s, pos) == Extracted(n, start + |Show(n)|)
  {
    var m := if n < 0 then -n else n;
    var q := if n < 0 then start + 1 else start;
    var e := start + |Show(n)|;
    assert s[start] == Show(n)[0];
    SkipSpaceAt(s, pos, start);
    assert SignEnd(s, start) == q;
    assert s[start..e][q - start..] == Shown(m);
    assert s[q..e] == s[start..e][q - start..];
    forall k | q <= k < e ensures IsDigit(s[k]) {
      assert s[k] == Shown(m)[k - q];
    }
    DigitsEndAt(s, q, e);
    DecimalShown(m);
  }

  /** A single digit after white space, and no digit after it, reads as an `int` of that digit. */
  lemma ReadDigit(s: seq<char>, pos: nat, start: nat)
    requires pos <= start < |s| && forall k :: pos <= k < start ==> IsSpace(s[k])
    requires IsDigit(s[start]) && (start + 1 < |s| ==> !IsDigit(s[start + 1]))
    ensures ReadInt(s, pos) == Extracted(s[start] as int - '0' as int, start + 1)
  {
    SkipSpaceAt(s, pos, start);
    assert SignEnd(s, start) == start;
    DigitsEndAt(s, start, start + 1);
    var ds := s[start..start + 1];
    assert ds[..0] == [];
    assert Decimal(ds) == s[start] as int - '0' as int;
  }

  /**
   * A single digit after white space, followed by neither a digit, a decimal
   * point nor an exponent, reads as a `double` with that text.
   */
  lemma ReadDoubleDigit(s: seq<char>, pos: nat, start: nat)
    requires pos <= start < |s| && forall k :: pos <= k < start ==> IsSpace(s[k])
    requires IsDigit(s[start])
    requires start + 1 < |s| ==> !IsDigit(s[start + 1]) && s[start + 1] != '.' && s[start + 1] != 'e' && s[start + 1] != 'E'
    ensures ReadDouble(s, pos) == Extracted([s[start]], start + 1)
  {
    SkipSpaceAt(s, pos, start);
    assert SignEnd(s, start) == start;
    DigitsEndAt(s, start, start + 1);
    assert s[start..start + 1] == [s[start]];
  }

  /**
   * A word after white space reads back as itself, provided white space or
   * the end of the stream follows it.
   */
  lemma ReadWordAt(s: seq<char>, pos: nat, start: nat, w: string)
    requires pos <= start <= |s| && forall k :: pos <= k < start ==> IsSpace(s[k])
    requires w != [] && (forall k :: 0 <= k < |w| ==> !IsSpace(w[k])) && At(s, start, w)
    requires start + |w| < |s| ==> IsSpace(s[start + |w|])
    ensures ReadWord(s, pos) == Extracted(w, start + |w|)
  {
    assert s[start] == w[0];
    SkipSpaceAt(s, pos, start);
    forall k | start <= k < start + |w| ensures !IsSpace(s[k]) {
      assert s[k] == w[k - start];
    }
    WordEndAt(s, start, start + |w|);
  }

  /**
   * The digits of `n` after white space read back as a `double` with that
   * text, provided neither a digit, a decimal point nor an exponent follows.
   */
  lemma ReadDoubleShown(s: seq<char>, pos: nat, start: nat, n: nat)
    requires pos <= start <= |s| && forall k :: pos <= k < start ==> IsSpace(s[k])
    requires At(s, start, Shown(n))
    requires var e := start + |Shown(n)|;
             e < |s| ==> !IsDigit(s[e]) && s[e] != '.' && s[e] != 'e' && s[e] != 'E'
    ensures ReadDouble(s, pos) == Extracted(Shown(n), start + |Shown(n)|)
  {
    var e := start + |Shown(n)|;
    assert s[start] == Shown(n)[0];
    SkipSpaceAt(s, pos, start);
    assert SignEnd(s, start) == start;
    forall k | start <= k < e ensures IsDigit(s[k]) {
      assert s[k] == Shown(n)[k - start];
    }
    DigitsEndAt(s, start, e);
  }
}
