/**
 * The string operations the binary-tree codec relies on: the decimal form of
 * an integer (`node.val + ","`), `parseInt(val, 10)` on such a form, and
 * `String.prototype.split(",")`.
 */
module Text {
  import opened Options

  predicate IsDigit(c: char) {
    '0' <= c <= '9'
  }

  predicate AllDigits(s: string) {
    forall i :: 0 <= i < |s| ==> IsDigit(s[i])
  }

  function DigitChar(d: nat): char
    requires d < 10
  {
    ('0' as int + d) as char
  }

  /** The decimal digits of `n`, most significant first, without leading zeros. */
  function NatToString(n: nat): (s: string)
    ensures s != [] && AllDigits(s)
    ensures s[0] == '0' ==> n == 0
    decreases n
  {
    if n < 10 then [DigitChar(n)] else NatToString(n / 10) + [DigitChar(n % 10)]
  }

  /** How a JavaScript integer value prints: an optional `-`, then its digits. */
  function IntToString(v: int): (s: string)
    ensures s != []
    ensures s[0] == '-' <==> v < 0
    ensures AllDigits(if v < 0 then s[1..] else s)
    ensures var d := if v < 0 then s[1..] else s; d != [] && (d[0] == '0' ==> v == 0)
  {
    if v < 0 then "-" + NatToString(-v) else NatToString(v)
  }

  /** The value of a run of decimal digits, read left to right. */
  function DigitsValue(s: string): nat
    requires AllDigits(s)
  {
    if s == [] then 0 else 10 * DigitsValue(s[..|s| - 1]) + (s[|s| - 1] as int - '0' as int)
  }

  function ParseNat(s: string): Option<nat> {
    if s != [] && AllDigits(s) then Some(DigitsValue(s)) else None
  }

  /**
   * `parseInt(s, 10)` on an optional sign followed by decimal digits; any
   * other token is a failure.
   */
  function ParseInt(s: string): (r: Option<int>)
    ensures r.Some? <==> (s != [] && AllDigits(s)) || (|s| >= 2 && (s[0] == '-' || s[0] == '+') && AllDigits(s[1..]))
    ensures r.Some? && r.value < 0 ==> s[0] == '-'
    ensures r.Some? ==> ',' !in s && s != "X"
  {
    if s != [] && (s[0] == '-' || s[0] == '+') then
      match ParseNat(s[1..])
      case None => None
      case Some(n) =>
        var v: int := if s[0] == '-' then 0 - (n as int) else n as int;
        Some(v)
    else
      match ParseNat(s)
      case None => None
      case Some(n) => Some(n)
  }

  /** `s.split(",")`: the pieces between commas, left to right; there is always at least one. */
  function Split(s: string): (pieces: seq<string>)
    ensures |pieces| >= 1
    ensures forall i :: 0 <= i < |pieces| ==> ',' !in pieces[i]
  {
    if s == [] then [""]
    else
      var rest := Split(s[1..]);
      if s[0] == ',' then [""] + rest else [[s[0]] + rest[0]] + rest[1..]
  }

  /** The pieces, with `,` between neighbours: what `split(",")` undoes. */
  function Join(pieces: seq<string>): string
    requires |pieces| >= 1
  {
    if |pieces| == 1 then pieces[0] else pieces[0] + "," + Join(pieces[1..])
  }

  // ---------------------------------------------------------------------------
  // Properties
  // ---------------------------------------------------------------------------

  lemma {:induction false} NatToStringDigits(n: nat)
    ensures NatToString(n) != [] && AllDigits(NatToString(n))
    ensures DigitsValue(NatToString(n)) == n
    decreases n
  {
    if n >= 10 {
      NatToStringDigits(n / 10);
      var s := NatToString(n);
      assert s[..|s| - 1] == NatToString(n / 10);
    }
  }

  /** Reading back the decimal form of an integer gives the integer. */
  lemma ParseIntToString(v: int)
    ensures ParseInt(IntToString(v)) == Some(v)
  {
    var n: nat := if v < 0 then -v else v;
    NatToStringDigits(n);
    var s := IntToString(v);
    if v < 0 {
      assert s[1..] == NatToString(n);
    }
  }

  /** The decimal form of an integer is a non-empty field that contains no `,` and is not `X`. */
  lemma IntToStringIsField(v: int)
    ensures IntToString(v) != [] && ',' !in IntToString(v) && IntToString(v) != "X"
  {
    var n: nat := if v < 0 then -v else v;
    NatToStringDigits(n);
    var s := IntToString(v);
    assert forall i :: 0 <= i < |s| ==> s[i] == '-' || IsDigit(s[i]);
    assert !IsDigit('X') && !IsDigit(',');
  }

  /** A field without a comma, then a comma, splits off as one piece. */
  lemma {:induction false} SplitField(f: string, s: string)
    requires ',' !in f
    ensures Split(f + "," + s) == [f] + Split(s)
    decreases |f|
  {
    if f == [] {
      assert f + "," + s == [','] + s;
      assert ([','] + s)[1..] == s;
    } else {
      assert (f + "," + s)[1..] == f[1..] + "," + s;
      SplitField(f[1..], s);
      assert [f[0]] + f[1..] == f;
    }
  }

  /** Joining the pieces of `s` with `,` gives back `s`. */
  lemma {:induction false} SplitJoin(s: string)
    ensures Join(Split(s)) == s
    decreases |s|
  {
    if s != [] {
      var rest := Split(s[1..]);
      SplitJoin(s[1..]);
      if s[0] == ',' {
        assert ([""] + rest)[1..] == rest;
        assert s == "," + s[1..];
      } else {
        var ps := [[s[0]] + rest[0]] + rest[1..];
        if |rest| == 1 {
          assert s == [s[0]] + s[1..];
        } else {
          assert ps[1..] == rest[1..];
          assert Join(ps) == [s[0]] + (rest[0] + "," + Join(rest[1..]));
          assert s == [s[0]] + s[1..];
        }
      }
    }
  }

  /** A text without commas is a single piece. */
  lemma {:induction false} SplitCommaFree(f: string)
    requires ',' !in f
    ensures Split(f) == [f]
    decreases |f|
  {
    if f != [] {
      SplitCommaFree(f[1..]);
      assert [f[0]] + f[1..] == f;
    }
  }

  /** Splitting the comma-joined text of comma-free pieces gives back those pieces. */
  lemma {:induction false} JoinSplit(pieces: seq<string>)
    requires |pieces| >= 1
    requires forall i :: 0 <= i < |pieces| ==> ',' !in pieces[i]
    ensures Split(Join(pieces)) == pieces
    decreases |pieces|
  {
    if |pieces| == 1 {
      SplitCommaFree(pieces[0]);
    } else {
      assert ',' !in pieces[0];
      SplitField(pieces[0], Join(pieces[1..]));
      JoinSplit(pieces[1..]);
      assert pieces == [pieces[0]] + pieces[1..];
    }
  }
}
