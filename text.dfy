/**
 * The few Python string built-ins the query layer relies on, modelled on
 * `seq<char>`:
 *  - `str.lower` (ASCII letters only) and its mirror image `str.upper`,
 *  - `str(n)` for an integer, with a parser as its inverse,
 *  - joining pieces with the separator `", "`, with a splitter as its inverse.
 */
module Text {

  // ---------------------------------------------------------------------
  // Case conversion
  // ---------------------------------------------------------------------

  function LowerChar(c: char): char {
    if 'A' <= c <= 'Z' then (c as int - 'A' as int + 'a' as int) as char else c
  }

  function UpperChar(c: char): char {
    if 'a' <= c <= 'z' then (c as int - 'a' as int + 'A' as int) as char else c
  }

  /** `s.lower()`, restricted to the ASCII letters. */
  function Lower(s: string): (r: string)
    ensures |r| == |s|
    ensures forall i :: 0 <= i < |s| ==> r[i] == LowerChar(s[i])
  {
    if s == [] then [] else [LowerChar(s[0])] + Lower(s[1..])
  }

  /** `s.upper()`, restricted to the ASCII letters. */
  function Upper(s: string): (r: string)
    ensures |r| == |s|
    ensures forall i :: 0 <= i < |s| ==> r[i] == UpperChar(s[i])
  {
    if s == [] then [] else [UpperChar(s[0])] + Upper(s[1..])
  }

  /** Every casing of a string lower-cases to the same text. */
  lemma CasingsAgree(s: string)
    ensures Lower(Lower(s)) == Lower(s)
    ensures Lower(Upper(s)) == Lower(s)
  {
  }

  // ---------------------------------------------------------------------
  // Decimal rendering of integers (`f"{n}"`)
  // ---------------------------------------------------------------------

  predicate IsDigit(c: char) {
    '0' <= c <= '9'
  }

  function DigitChar(d: nat): (c: char)
    requires d < 10
    ensures IsDigit(c) && c as int - '0' as int == d
  {
    ('0' as int + d) as char
  }

  function DigitValue(c: char): (d: nat)
    requires IsDigit(c)
    ensures d < 10 && DigitChar(d) == c
  {
    c as int - '0' as int
  }

  /** The decimal digits of `n`, most significant first, without leading zeros. */
  function NatToString(n: nat): (s: string)
    ensures |s| >= 1
    ensures forall i :: 0 <= i < |s| ==> IsDigit(s[i])
    ensures n == 0 ==> s == "0"
    ensures n > 0 ==> s[0] != '0'
  {
    if n < 10 then [DigitChar(n)] else NatToString(n / 10) + [DigitChar(n % 10)]
  }

  /** `str(n)`: a minus sign for negative numbers, then the digits without leading zeros. */
  function IntToString(n: int): (s: string)
    ensures |s| >= 1
    ensures forall c :: c in s ==> c == '-' || IsDigit(c)
    ensures s[0] == '-' <==> n < 0
    ensures n < 0 ==> |s| > 1 && IsDigit(s[1]) && s[1] != '0'
    ensures n >= 0 && |s| > 1 ==> s[0] != '0'
  {
    if n < 0 then "-" + NatToString(-n) else NatToString(n)
  }

  /** Reads back a string of decimal digits. */
  function ParseNat(s: string): nat
    requires forall i :: 0 <= i < |s| ==> IsDigit(s[i])
  {
    if s == [] then 0 else 10 * ParseNat(s[..|s| - 1]) + DigitValue(s[|s| - 1])
  }

  /** Reads back an optionally negative decimal number. */
  function ParseInt(s: string): int
    requires |s| >= 1
    requires s[0] == '-' || IsDigit(s[0])
    requires forall i :: 1 <= i < |s| ==> IsDigit(s[i])
  {
    if s[0] == '-' then 0 - ParseNat(s[1..]) as int else ParseNat(s)
  }

  lemma {:induction false} ParseNatToString(n: nat)
    ensures ParseNat(NatToString(n)) == n
  {
    if n >= 10 {
      var s := NatToString(n);
      assert s[..|s| - 1] == NatToString(n / 10);
      ParseNatToString(n / 10);
    }
  }

  /** Rendering an integer loses nothing: it parses back to the same number. */
  lemma IntToStringRoundTrip(n: int)
    ensures ParseInt(IntToString(n)) == n
  {
    var s := IntToString(n);
    if n < 0 {
      assert s[1..] == NatToString(-n);
      ParseNatToString(-n);
    } else {
      ParseNatToString(n);
    }
  }

  // ---------------------------------------------------------------------
  // Joining with ", " and splitting on it
  // ---------------------------------------------------------------------

  const Separator: string := ", "

  /** `", ".join(parts)`: the pieces with one separator between neighbours. */
  function Join(parts: seq<string>): string {
    if |parts| == 0 then ""
    else if |parts| == 1 then parts[0]
    else parts[0] + Separator + Join(parts[1..])
  }

  /** `s.split(", ")`: the pieces between occurrences of the separator, left to right. */
  function Split(s: string): (r: seq<string>)
    ensures |r| >= 1
    ensures Join(r) == s
    decreases |s|
  {
    if |s| == 0 then [""]
    else if |s| >= 2 && s[0] == ',' && s[1] == ' ' then
      assert s == Separator + s[2..];
      [""] + Split(s[2..])
    else
      var rest := Split(s[1..]);
      assert s == [s[0]] + s[1..];
      [[s[0]] + rest[0]] + rest[1..]
  }

  /** Appending one piece at the end, as a loop that builds the text does. */
  lemma {:induction false} JoinSnoc(parts: seq<string>, p: string)
    ensures Join(parts + [p]) == if parts == [] then p else Join(parts) + Separator + p
  {
    if |parts| >= 2 {
      assert (parts + [p])[1..] == parts[1..] + [p];
      JoinSnoc(parts[1..], p);
    } else if |parts| == 1 {
      assert (parts + [p])[1..] == [p];
    }
  }

  /** With non-empty pieces the joined text is empty exactly when there are no pieces. */
  lemma JoinEmpty(parts: seq<string>)
    requires forall j :: 0 <= j < |parts| ==> parts[j] != ""
    ensures Join(parts) == "" <==> parts == []
    ensures parts != [] ==> Join(parts)[0] == parts[0][0]
  {
  }

  /** The joined text begins with the whole first piece. */
  lemma JoinStartsWithFirst(parts: seq<string>)
    requires parts != []
    ensures |Join(parts)| >= |parts[0]| && Join(parts)[..|parts[0]|] == parts[0]
  {
  }

  /** Splitting a piece free of commas that is followed by the separator. */
  lemma {:induction false} SplitAfterPiece(p: string, t: string)
    requires ',' !in p
    ensures Split(p + Separator + t) == [p] + Split(t)
  {
    if p == [] {
      assert p + Separator + t == Separator + t;
      assert (Separator + t)[2..] == t;
    } else {
      var s := p + Separator + t;
      assert s[1..] == p[1..] + Separator + t;
      SplitAfterPiece(p[1..], t);
      assert [s[0]] + p[1..] == p;
    }
  }

  lemma {:induction false} SplitPiece(p: string)
    requires ',' !in p
    ensures Split(p) == [p]
  {
    if p != [] {
      SplitPiece(p[1..]);
      assert [p[0]] + p[1..] == p;
    }
  }

  /** Splitting undoes joining when no piece contains a comma. */
  lemma {:induction false} SplitJoin(parts: seq<string>)
    requires |parts| >= 1
    requires forall j :: 0 <= j < |parts| ==> ',' !in parts[j]
    ensures Split(Join(parts)) == parts
  {
    if |parts| == 1 {
      SplitPiece(parts[0]);
    } else {
      SplitJoin(parts[1..]);
      SplitAfterPiece(parts[0], Join(parts[1..]));
    }
  }
}
