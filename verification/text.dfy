/** Character and string primitives the services rely on: ASCII case mapping,
    the JavaScript `\s` class, decimal rendering and parsing of naturals,
    `indexOf` of a character, and `split(' ')` / `join(' ')`. */
module Text {
  import opened Results

  predicate IsDigit(c: char) { '0' <= c <= '9' }

  predicate IsLowerLetter(c: char) { 'a' <= c <= 'z' }

  predicate IsUpperLetter(c: char) { 'A' <= c <= 'Z' }

  /** The regular-expression word class `\w` (without the unicode flag). */
  predicate IsWordChar(c: char) {
    IsLowerLetter(c) || IsUpperLetter(c) || IsDigit(c) || c == '_'
  }

  /** The regular-expression class `\s`, which is also the set `String.prototype.trim` removes. */
  predicate IsJsWhitespace(c: char) {
    c == ' ' || c == '\t' || c == '\n' || c == '\r' || c == '\U{B}' || c == '\U{C}'
    || c == '\U{A0}' || c == '\U{1680}' || ('\U{2000}' <= c <= '\U{200A}')
    || c == '\U{2028}' || c == '\U{2029}' || c == '\U{202F}' || c == '\U{205F}'
    || c == '\U{3000}' || c == '\U{FEFF}'
  }

  /** `toUpperCase` of one character, restricted to the ASCII letters. */
  function Upper(c: char): (u: char)
    ensures IsLowerLetter(c) ==> IsUpperLetter(u) && u as int == c as int - 32
    ensures !IsLowerLetter(c) ==> u == c
  {
    if IsLowerLetter(c) then (c as int - 32) as char else c
  }

  /** `toLowerCase` of one character, restricted to the ASCII letters. */
  function Lower(c: char): (l: char)
    ensures IsUpperLetter(c) ==> IsLowerLetter(l) && l as int == c as int + 32
    ensures !IsUpperLetter(c) ==> l == c
  {
    if IsUpperLetter(c) then (c as int + 32) as char else c
  }

  lemma CaseMappingFacts(c: char)
    ensures Upper(Upper(c)) == Upper(c)
    ensures Lower(Upper(c)) == Lower(c)
    ensures Lower(Lower(c)) == Lower(c)
    ensures (Upper(c) == ' ') == (c == ' ')
  {
  }

  function UpperAll(s: string): (r: string)
    ensures |r| == |s|
    ensures forall i :: 0 <= i < |s| ==> r[i] == Upper(s[i])
  {
    seq(|s|, i requires 0 <= i < |s| => Upper(s[i]))
  }

  function LowerAll(s: string): (r: string)
    ensures |r| == |s|
    ensures forall i :: 0 <= i < |s| ==> r[i] == Lower(s[i])
  {
    seq(|s|, i requires 0 <= i < |s| => Lower(s[i]))
  }

  // ---------------------------------------------------------------------------
  // Decimal rendering (template literals, `String(n)`) and digit parsing.

  function DigitChar(d: nat): (c: char)
    requires d < 10
    ensures IsDigit(c)
  {
    ('0' as int + d) as char
  }

  function DigitValue(c: char): (d: nat)
    requires IsDigit(c)
    ensures d < 10 && DigitChar(d) == c
  {
    c as int - '0' as int
  }

  predicate AllDigits(s: string) {
    forall i :: 0 <= i < |s| ==> IsDigit(s[i])
  }

  /** The decimal representation of `n`, without leading zeros. */
  function Decimal(n: nat): (s: string)
    ensures |s| >= 1 && AllDigits(s)
    ensures s[0] == '0' ==> n == 0 && |s| == 1
  {
    if n < 10 then [DigitChar(n)] else Decimal(n / 10) + [DigitChar(n % 10)]
  }

  /** The value of a string of decimal digits, most significant first. */
  function ParseDigits(s: string): nat
    requires AllDigits(s)
  {
    if s == [] then 0 else ParseDigits(s[..|s| - 1]) * 10 + DigitValue(s[|s| - 1])
  }

  lemma {:induction false} DecimalRoundTrip(n: nat)
    ensures ParseDigits(Decimal(n)) == n
  {
    if n >= 10 {
      var s := Decimal(n);
      assert s[..|s| - 1] == Decimal(n / 10);
      DecimalRoundTrip(n / 10);
    }
  }

  /** A non-empty digit string without a leading zero (other than `"0"` itself) is
      the decimal representation of its value. */
  lemma {:induction false} CanonicalDigitsRoundTrip(s: string)
    requires s != "" && AllDigits(s) && (s[0] != '0' || |s| == 1)
    ensures Decimal(ParseDigits(s)) == s
    decreases |s|
  {
    var d := DigitValue(s[|s| - 1]);
    if |s| == 1 {
      assert s[..0] == [];
      assert s == [DigitChar(d)];
    } else {
      var p := s[..|s| - 1];
      assert p[0] == s[0];
      CanonicalDigitsRoundTrip(p);
      var n := ParseDigits(p) * 10 + d;
      assert ParseDigits(p) >= 1;
      assert n / 10 == ParseDigits(p) && n % 10 == d;
      assert s == p + [DigitChar(d)];
    }
  }

  lemma DecimalExamplePrefix()
    ensures Decimal(17185) == "17185"
  {
    assert DigitChar(1) == '1' && DigitChar(5) == '5' && DigitChar(7) == '7' && DigitChar(8) == '8';
    assert Decimal(1) == "1";
    assert Decimal(17) == Decimal(1) + "7";
    assert Decimal(171) == Decimal(17) + "1";
    assert Decimal(1718) == Decimal(171) + "8";
    assert Decimal(17185) == Decimal(1718) + "5";
  }

  /** The decimal rendering of a ten-digit second count. */
  lemma DecimalExample()
    ensures Decimal(1718529600) == "1718529600"
  {
    DecimalExamplePrefix();
    assert DigitChar(0) == '0' && DigitChar(2) == '2' && DigitChar(6) == '6' && DigitChar(9) == '9';
    assert Decimal(171852) == Decimal(17185) + "2";
    assert Decimal(1718529) == Decimal(171852) + "9";
    assert Decimal(17185296) == Decimal(1718529) + "6";
    assert Decimal(171852960) == Decimal(17185296) + "0";
    assert Decimal(1718529600) == Decimal(171852960) + "0";
  }

  // ---------------------------------------------------------------------------
  // indexOf, split(' ') and join(' ').

  /** `s.indexOf(c)`: the first position of `c`, if any. */
  function IndexOf(s: string, c: char): (r: Option<nat>)
    ensures r.None? ==> c !in s
    ensures r.Some? ==> r.value < |s| && s[r.value] == c && c !in s[..r.value]
  {
    if |s| == 0 then None
    else if s[0] == c then Some(0)
    else match IndexOf(s[1..], c)
      case None => None
      case Some(k) => assert s[..k + 1] == [s[0]] + s[1..][..k]; Some(k + 1)
  }

  lemma IndexOfSplitPoint(a: string, c: char, b: string)
    requires c !in a
    ensures IndexOf(a + [c] + b, c) == Some(|a|)
  {
    var s := a + [c] + b;
    assert s[|a|] == c;
    assert s[..|a|] == a;
    var r := IndexOf(s, c);
    assert c in s[..|a| + 1] by { assert s[..|a| + 1][|a|] == c; }
  }

  predicate SpaceFree(t: string) { ' ' !in t }

  /** `s.split(' ')`: the space-delimited tokens of `s`, empty ones included. */
  function Split(s: string): (ts: seq<string>)
    ensures |ts| >= 1
    ensures forall i :: 0 <= i < |ts| ==> SpaceFree(ts[i])
    decreases |s|
  {
    match IndexOf(s, ' ')
    case None => [s]
    case Some(k) => [s[..k]] + Split(s[k + 1..])
  }

  /** `ts.join(' ')`. */
  function Join(ts: seq<string>): string
    requires |ts| >= 1
  {
    if |ts| == 1 then ts[0] else ts[0] + " " + Join(ts[1..])
  }

  lemma {:induction false} JoinSplit(s: string)
    ensures Join(Split(s)) == s
    decreases |s|
  {
    match IndexOf(s, ' ')
    case None =>
    case Some(k) =>
      JoinSplit(s[k + 1..]);
      var rest := Split(s[k + 1..]);
      var all := Split(s);
      assert all == [s[..k]] + rest;
      assert all[1..] == rest;
      assert Join(all) == s[..k] + " " + Join(rest);
      assert s == s[..k] + " " + s[k + 1..];
  }

  lemma {:induction false} SplitJoin(ts: seq<string>)
    requires |ts| >= 1
    requires forall i :: 0 <= i < |ts| ==> SpaceFree(ts[i])
    ensures Split(Join(ts)) == ts
  {
    if |ts| == 1 {
      assert IndexOf(ts[0], ' ').None?;
    } else {
      IndexOfSplitPoint(ts[0], ' ', Join(ts[1..]));
      var s := Join(ts);
      assert s == ts[0] + [' '] + Join(ts[1..]);
      assert s[..|ts[0]|] == ts[0];
      assert s[|ts[0]| + 1..] == Join(ts[1..]);
      SplitJoin(ts[1..]);
      assert ts == [ts[0]] + ts[1..];
    }
  }

  /** Applies `f` to every token of `s` and glues the results back with single spaces. */
  function TokenWise(f: string -> string, s: string): string
  {
    var ts := Split(s);
    Join(seq(|ts|, i requires 0 <= i < |ts| => f(ts[i])))
  }

  lemma TokenWiseStep(f: string -> string, s: string, k: nat)
    requires IndexOf(s, ' ') == Some(k)
    ensures TokenWise(f, s) == f(s[..k]) + " " + TokenWise(f, s[k + 1..])
  {
    var ts := Split(s[k + 1..]);
    var all := Split(s);
    assert all == [s[..k]] + ts;
    var mapped := seq(|all|, i requires 0 <= i < |all| => f(all[i]));
    var rest := seq(|ts|, i requires 0 <= i < |ts| => f(ts[i]));
    assert mapped[1..] == rest;
  }

  /** A token map that keeps each token's length and adds no space keeps the
      string's length and the exact positions of its spaces. */
  lemma {:induction false} TokenWiseShape(f: string -> string, s: string)
    requires forall t :: SpaceFree(t) ==> |f(t)| == |t| && SpaceFree(f(t))
    ensures |TokenWise(f, s)| == |s|
    ensures forall i :: 0 <= i < |s| ==> (TokenWise(f, s)[i] == ' ' <==> s[i] == ' ')
    decreases |s|
  {
    match IndexOf(s, ' ')
    case None =>
      assert Split(s) == [s];
    case Some(k) =>
      TokenWiseStep(f, s, k);
      TokenWiseShape(f, s[k + 1..]);
      var head := f(s[..k]);
      var r := TokenWise(f, s);
      forall i | 0 <= i < |s|
        ensures r[i] == ' ' <==> s[i] == ' '
      {
        if i < k {
          assert r[i] == head[i];
          assert s[i] == s[..k][i];
          assert head[i] != ' ' && s[..k][i] != ' ';
        } else if i > k {
          assert r[i] == TokenWise(f, s[k + 1..])[i - k - 1];
          assert s[i] == s[k + 1..][i - k - 1];
        }
      }
  }
}
