/** Parsing of the list endpoint's query arguments: the `completed`
    truthy token and the `window` integer (todo/views/routes.py:27-35). */
module Query {
  import opened Options

  /** Lower-cases ASCII letters and leaves every other character alone. */
  function LowerChar(c: char): char {
    if 'A' <= c <= 'Z' then (c as int - 'A' as int + 'a' as int) as char else c
  }

  /** `s.lower()`, restricted to ASCII letters. */
  function Lower(s: string): (r: string)
    ensures |r| == |s|
    ensures forall i :: 0 <= i < |s| ==> r[i] == LowerChar(s[i])
  {
    seq(|s|, i requires 0 <= i < |s| => LowerChar(s[i]))
  }

  /** The tokens the list endpoint reads as "completed". */
  const TruthyTokens: seq<string> := ["true", "1", "t"]

  /** `completed_query.lower() in ['true', '1', 't']`: any other string is
      simply false, never an error. */
  predicate IsTruthyToken(s: string)
    ensures IsTruthyToken(s) <==> SpelledTruthy(s)
  {
    TruthyTokenIff(s);
    Lower(s) in TruthyTokens
  }

  /** An independent, character-by-character description of the accepted
      tokens: "1", "t" or "true" in any mix of letter cases. */
  predicate SpelledTruthy(s: string) {
    || s == "1"
    || (|s| == 1 && (s[0] == 't' || s[0] == 'T'))
    || (&& |s| == 4
        && (s[0] == 't' || s[0] == 'T')
        && (s[1] == 'r' || s[1] == 'R')
        && (s[2] == 'u' || s[2] == 'U')
        && (s[3] == 'e' || s[3] == 'E'))
  }

  lemma LowerCharIs(c: char, lo: char)
    requires 'a' <= lo <= 'z'
    ensures LowerChar(c) == lo <==> c == lo || c as int == lo as int - 32
  {
  }

  /** A string lower-cases to one of the tokens exactly when it spells one
      of them out. */
  lemma TruthyTokenIff(s: string)
    ensures Lower(s) in TruthyTokens <==> SpelledTruthy(s)
  {
    var l := Lower(s);
    if |s| == 1 {
      LowerCharIs(s[0], 't');
      assert l == [LowerChar(s[0])];
      assert l == "1" <==> s[0] == '1';
      assert l == "t" <==> s[0] == 't' || s[0] == 'T';
    } else if |s| == 4 {
      LowerCharIs(s[0], 't');
      LowerCharIs(s[1], 'r');
      LowerCharIs(s[2], 'u');
      LowerCharIs(s[3], 'e');
      assert l == [LowerChar(s[0]), LowerChar(s[1]), LowerChar(s[2]), LowerChar(s[3])];
    } else {
      assert l != "true" && l != "1" && l != "t";
    }
  }

  predicate IsDigit(c: char) {
    '0' <= c <= '9'
  }

  predicate AllDigits(s: string) {
    forall i :: 0 <= i < |s| ==> IsDigit(s[i])
  }

  function DigitValue(c: char): nat
    requires IsDigit(c)
  {
    c as int - '0' as int
  }

  /** The decimal value of a string of digits, most significant first. */
  function DigitsValue(s: string): nat
    requires AllDigits(s)
    decreases |s|
  {
    if s == [] then 0 else DigitsValue(s[..|s| - 1]) * 10 + DigitValue(s[|s| - 1])
  }

  /** Flask's `request.args.get('window', type=int)`: Python's `int()` on the
      argument, with a malformed argument read as absent rather than as an
      error. Accepted: an optional sign followed by one or more digits. */
  function ParseInt(s: string): (r: Option<int>)
    ensures r.Some? <==> IsIntLiteral(s)
    ensures r.Some? && AllDigits(s) ==> 0 <= r.value
    ensures r.Some? && s[0] == '-' ==> r.value <= 0
  {
    if 0 < |s| && (s[0] == '-' || s[0] == '+') then
      var digits := s[1..];
      if 0 < |digits| && AllDigits(digits) then
        var magnitude: int := DigitsValue(digits);
        Some(if s[0] == '-' then -magnitude else magnitude)
      else None
    else if 0 < |s| && AllDigits(s) then Some(DigitsValue(s))
    else None
  }

  /** An optional sign followed by one or more digits. */
  predicate IsIntLiteral(s: string) {
    || (0 < |s| && AllDigits(s))
    || (1 < |s| && (s[0] == '-' || s[0] == '+') && AllDigits(s[1..]))
  }

  function DigitChar(d: nat): (c: char)
    requires d < 10
    ensures IsDigit(c) && DigitValue(c) == d
  {
    ('0' as int + d) as char
  }

  /** Decimal rendering of a natural number, as a client writes it. */
  function ShowNat(n: nat): (s: string)
    ensures 0 < |s| && AllDigits(s)
    decreases n
  {
    if n < 10 then [DigitChar(n)] else ShowNat(n / 10) + [DigitChar(n % 10)]
  }

  /** Decimal rendering of an integer: `str(n)` in Python. */
  function Show(n: int): string {
    if n < 0 then "-" + ShowNat(-n) else ShowNat(n)
  }

  lemma {:induction false} DigitsOfShowNat(n: nat)
    ensures DigitsValue(ShowNat(n)) == n
    decreases n
  {
    var s := ShowNat(n);
    if n >= 10 {
      DigitsOfShowNat(n / 10);
      assert s[..|s| - 1] == ShowNat(n / 10);
    }
  }

  /** Every integer a client writes in decimal is read back unchanged. */
  lemma ParseShow(n: int)
    ensures ParseInt(Show(n)) == Some(n)
  {
    if n < 0 {
      DigitsOfShowNat(-n);
      assert Show(n)[1..] == ShowNat(-n);
    } else {
      DigitsOfShowNat(n);
    }
  }

  /** Arguments that are not integers are ignored, never rejected: an
      empty or sign-only argument, and one with a character that is neither
      a digit nor a leading sign, read as absent. */
  lemma ParseIntRejects(s: string)
    ensures s == "" || s == "-" || s == "+" ==> ParseInt(s).None?
    ensures (exists i :: 0 <= i < |s| && !IsDigit(s[i]) && !(i == 0 && (s[0] == '-' || s[0] == '+'))) ==>
      ParseInt(s).None?
  {
  }
}
