/** A simplified case-insensitive natural order on file names, the order
    `natcasesort` sorts the catalog by.

    A name is read as a sequence of tokens: each maximal run of decimal
    digits becomes one numeric token, every other character becomes a
    character token folded to upper case.  Names are compared token by
    token; two numeric tokens compare by value, two character tokens by
    character code, and a numeric token against a character token compares
    as a digit character would against that character.  The empty remainder
    sorts first.  Leading-zero ("fractional") runs and whitespace skipping
    of the full PHP algorithm are not modelled. */
module NatOrder {
  import opened Text

  datatype Token = Num(value: nat) | Chr(c: char)

  /** Rank of a token's kind: characters below `0`, then digit runs, then
      characters above `9`.  A character token never holds a digit, so this
      is exactly how a digit's code compares with that character's code. */
  function Class(t: Token): (rank: int) {
    match t
    case Num(_) => 1
    case Chr(c) => if c < '0' then 0 else 2
  }

  function Weight(t: Token): (w: int) {
    match t
    case Num(n) => n
    case Chr(c) => c as int
  }

  predicate TokenLess(a: Token, b: Token) {
    Class(a) < Class(b) || (Class(a) == Class(b) && Weight(a) < Weight(b))
  }

  /** Token order is a strict total order. */
  lemma TokenTrichotomy(a: Token, b: Token)
    ensures TokenLess(a, b) || TokenLess(b, a) || a == b
    ensures !(TokenLess(a, b) && TokenLess(b, a))
  {
  }

  /** The token reading of a name. */
  function Tokens(s: string): (ts: seq<Token>)
    ensures |ts| <= |s|
    ensures forall i :: 0 <= i < |ts| && ts[i].Chr? ==> !IsDigit(ts[i].c)
    decreases |s|
  {
    if |s| == 0 then []
    else if IsDigit(s[0]) then
      var k := DigitPrefix(s);
      [Num(DecimalValue(s[..k]))] + Tokens(s[k..])
    else
      [Chr(UpperChar(s[0]))] + Tokens(s[1..])
  }

  /** Lexicographic comparison of token sequences: negative, zero or
      positive as `a` sorts before, together with, or after `b`. */
  function CompareTokens(a: seq<Token>, b: seq<Token>): (r: int)
    ensures r in {-1, 0, 1}
    ensures r == 0 <==> a == b
  {
    if |a| == 0 && |b| == 0 then 0
    else if |a| == 0 then -1
    else if |b| == 0 then 1
    else if TokenLess(a[0], b[0]) then -1
    else if TokenLess(b[0], a[0]) then 1
    else
      TokenTrichotomy(a[0], b[0]);
      assert a == [a[0]] + a[1..] && b == [b[0]] + b[1..];
      CompareTokens(a[1..], b[1..])
  }

  /** The comparator applied to two file names. */
  function Compare(x: string, y: string): (r: int)
    ensures r in {-1, 0, 1}
    ensures r == 0 <==> Tokens(x) == Tokens(y)
  {
    CompareTokens(Tokens(x), Tokens(y))
  }

  /** `x` may sort before `y`. */
  predicate NatLe(x: string, y: string) {
    Compare(x, y) <= 0
  }

  lemma {:induction false} CompareTokensAntisymmetric(a: seq<Token>, b: seq<Token>)
    ensures CompareTokens(a, b) == -CompareTokens(b, a)
  {
    if |a| > 0 && |b| > 0 {
      TokenTrichotomy(a[0], b[0]);
      if !TokenLess(a[0], b[0]) && !TokenLess(b[0], a[0]) {
        CompareTokensAntisymmetric(a[1..], b[1..]);
      }
    }
  }

  lemma {:induction false} CompareTokensTransitive(a: seq<Token>, b: seq<Token>, c: seq<Token>)
    requires CompareTokens(a, b) <= 0 && CompareTokens(b, c) <= 0
    ensures CompareTokens(a, c) <= 0
  {
    if |a| > 0 && |b| > 0 && |c| > 0 {
      TokenTrichotomy(a[0], b[0]);
      TokenTrichotomy(b[0], c[0]);
      TokenTrichotomy(a[0], c[0]);
      if a[0] == b[0] && b[0] == c[0] {
        CompareTokensTransitive(a[1..], b[1..], c[1..]);
      }
    }
  }

  /** Any two names are comparable. */
  lemma NatLeTotal(x: string, y: string)
    ensures NatLe(x, y) || NatLe(y, x)
    ensures !NatLe(x, y) ==> Compare(y, x) < 0
  {
    CompareTokensAntisymmetric(Tokens(x), Tokens(y));
  }

  lemma NatLeTransitive(x: string, y: string, z: string)
    requires NatLe(x, y) && NatLe(y, z)
    ensures NatLe(x, z)
  {
    CompareTokensTransitive(Tokens(x), Tokens(y), Tokens(z));
  }

  /** Two names tie exactly when they read as the same tokens. */
  lemma NatTieIffSameTokens(x: string, y: string)
    ensures (NatLe(x, y) && NatLe(y, x)) <==> Tokens(x) == Tokens(y)
  {
    CompareTokensAntisymmetric(Tokens(x), Tokens(y));
  }

  /** Lower-casing a name does not move it in the order. */
  lemma {:induction false} TokensIgnoreCase(s: string)
    ensures Tokens(Lower(s)) == Tokens(s)
    decreases |s|
  {
    if |s| > 0 {
      var l := Lower(s);
      assert IsDigit(l[0]) <==> IsDigit(s[0]);
      if IsDigit(s[0]) {
        var k := DigitPrefix(s);
        DigitRunOfLower(s);
        assert l[..k] == s[..k];
        assert l[k..] == Lower(s[k..]);
        TokensIgnoreCase(s[k..]);
      } else {
        assert UpperChar(l[0]) == UpperChar(s[0]);
        assert l[1..] == Lower(s[1..]);
        TokensIgnoreCase(s[1..]);
      }
    }
  }

  lemma {:induction false} DigitRunOfLower(s: string)
    ensures DigitPrefix(Lower(s)) == DigitPrefix(s)
    ensures forall i :: 0 <= i < DigitPrefix(s) ==> Lower(s)[i] == s[i]
    decreases |s|
  {
    if |s| > 0 {
      assert Lower(s)[1..] == Lower(s[1..]);
      DigitRunOfLower(s[1..]);
    }
  }

  /** Digit runs compare by value: `c2.gif` sorts before `c10.gif`. */
  lemma NumericRunsExample()
    ensures Compare("c2.gif", "c10.gif") < 0
  {
    assert DigitPrefix("2.gif") == 1 by {
      assert DigitPrefix(".gif") == 0;
    }
    assert DigitPrefix("10.gif") == 2 by {
      assert DigitPrefix("0.gif") == 1 by {
        assert DigitPrefix(".gif") == 0;
      }
    }
    assert DecimalValue("2") == 2;
    assert DecimalValue("10") == 10 by {
      assert "10"[..1] == "1";
    }
    var a := Tokens("c2.gif");
    var b := Tokens("c10.gif");
    assert a == [Chr('C')] + Tokens("2.gif") by {
      assert "c2.gif"[1..] == "2.gif";
    }
    assert b == [Chr('C')] + Tokens("10.gif") by {
      assert "c10.gif"[1..] == "10.gif";
    }
    assert Tokens("2.gif") == [Num(2)] + Tokens(".gif") by {
      assert "2.gif"[..1] == "2" && "2.gif"[1..] == ".gif";
    }
    assert Tokens("10.gif") == [Num(10)] + Tokens(".gif") by {
      assert "10.gif"[..2] == "10" && "10.gif"[2..] == ".gif";
    }
    assert a[1..] == Tokens("2.gif") && b[1..] == Tokens("10.gif");
  }

  /** Case does not matter: `a.jpg` sorts before `B.png`. */
  lemma CaseInsensitiveExample()
    ensures Compare("a.jpg", "B.png") < 0
  {
    assert Tokens("a.jpg") == [Chr('A')] + Tokens(".jpg");
    assert Tokens("B.png") == [Chr('B')] + Tokens(".png");
  }
}
