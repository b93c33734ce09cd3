/**
 * Column-name codec of the spreadsheet prototype (`num_to_colname` and
 * `colname_to_num`).
 *
 * The encoder is NOT textbook bijective base 26: an index j >= 26 is written
 * in ordinary base 26, most significant digit first, and only the leading
 * digit is lowered by one when it is turned into a letter. So 26 -> "AA",
 * 51 -> "AZ", 52 -> "BA", 675 -> "YZ", 676 -> "AAA", 701 -> "AAZ", and no
 * name of two or more letters starts with 'Z'. The decoder inverts this on
 * the left only: "ZA" and "AAA" both decode to 676.
 */
module ColumnNames {

  /** The errors the decoder raises: `col[0]` on an empty string (an index
      error) and `alphabet.index` of a character outside A..Z (a value error). */
  datatype NameError = EmptyName | NotALetter

  datatype Result<T> = Ok(value: T) | Err(error: NameError)

  predicate IsLetter(c: char) {
    'A' <= c <= 'Z'
  }

  /** `alphabet[d]` */
  function Letter(d: nat): (c: char)
    requires d < 26
    ensures IsLetter(c)
  {
    ('A' as int + d) as char
  }

  /** `alphabet.index(c)` for a letter */
  function LetterIndex(c: char): (d: nat)
    requires IsLetter(c)
    ensures d < 26 && Letter(d) == c
  {
    (c as int - 'A' as int) as nat
  }

  predicate AllDigits(ds: seq<nat>) {
    forall k :: 0 <= k < |ds| ==> ds[k] < 26
  }

  predicate AllLetters(s: string) {
    forall k :: 0 <= k < |s| ==> IsLetter(s[k])
  }

  /** Positional value of a base-26 digit sequence, most significant digit
      first: the sum of `digit * 26^place`. */
  function Value(ds: seq<nat>): nat {
    if ds == [] then 0 else Value(ds[..|ds| - 1]) * 26 + ds[|ds| - 1]
  }

  /** The ordinary base-26 digits of j, most significant first. */
  function Digits(j: nat): (ds: seq<nat>)
    ensures |ds| >= 1 && AllDigits(ds)
    ensures |ds| == 1 <==> j < 26
    ensures j >= 26 ==> ds[0] >= 1
    decreases j
  {
    if j < 26 then [j] else Digits(j / 26) + [j % 26]
  }

  /** The digits are those of j. */
  lemma {:induction false} DigitsValue(j: nat)
    ensures Value(Digits(j)) == j
    decreases j
  {
    if j >= 26 {
      var ds := Digits(j);
      assert ds[..|ds| - 1] == Digits(j / 26);
      DigitsValue(j / 26);
    }
  }

  /** The letters for a sequence of digits (`''.join(alphabet[i] for i in ...)`). */
  function Letters(ds: seq<nat>): (s: string)
    requires AllDigits(ds)
    ensures |s| == |ds| && AllLetters(s)
    ensures forall k :: 0 <= k < |ds| ==> LetterIndex(s[k]) == ds[k]
  {
    seq(|ds|, k requires 0 <= k < |ds| => Letter(ds[k]))
  }

  /** The alphabet positions of a string of letters. */
  function Indices(s: string): (ds: seq<nat>)
    requires AllLetters(s)
    ensures |ds| == |s| && AllDigits(ds)
  {
    seq(|s|, k requires 0 <= k < |s| => LetterIndex(s[k]))
  }

  /** The name `num_to_colname(j)` produces. */
  function ColName(j: nat): (name: string)
    ensures AllLetters(name)
    ensures |name| == |Digits(j)|
    ensures |name| == 1 <==> j < 26
    ensures |name| > 1 ==> name[0] != 'Z'
  {
    if j < 26 then [Letter(j)]
    else
      var ds := Digits(j);
      [Letter(ds[0] - 1)] + Letters(ds[1..])
  }

  /** The index `colname_to_num(name)` returns, or the error it raises. */
  function ColIndex(name: string): Result<nat> {
    if |name| == 0 then Err(EmptyName)
    else if |name| == 1 then
      if IsLetter(name[0]) then Ok(LetterIndex(name[0])) else Err(NotALetter)
    else if AllLetters(name) then
      Ok(Value([LetterIndex(name[0]) + 1] + Indices(name[1..])))
    else Err(NotALetter)
  }

  /** `num_to_colname`: collect the base-26 digits least significant first,
      then emit the leading digit lowered by one and the others reversed. */
  method NumToColname(j: nat) returns (name: string)
    ensures name == ColName(j)
  {
    if j < 26 {
      return [Letter(j)];
    }
    var n := j;
    var prefix: seq<nat> := [];
    while n >= 26
      invariant n >= 1
      invariant AllDigits(prefix)
      invariant Digits(j) == Digits(n) + Reversed(prefix)
      decreases n
    {
      ReversedSnoc(prefix, n % 26);
      prefix := prefix + [n % 26];
      n := n / 26;
    }
    var full := prefix + [n];
    assert full[..|full| - 1] == prefix && full[|full| - 1] == n;
    ColNameOfDigits(j, prefix);
    name := [Letter(full[|full| - 1] - 1)] + Letters(Reversed(full[..|full| - 1]));
  }

  lemma ColNameOfDigits(j: nat, rest: seq<nat>)
    requires j >= 26 && AllDigits(rest)
    requires |Digits(j)| == |rest| + 1 && Digits(j)[1..] == Reversed(rest)
    ensures 1 <= Digits(j)[0] < 26
    ensures ColName(j) == [Letter(Digits(j)[0] - 1)] + Letters(Reversed(rest))
  {
  }

  /** `colname_to_num`: the leading letter counts one more than its position,
      the others their position; the result is their positional value. */
  method ColnameToNum(col: string) returns (r: Result<nat>)
    ensures r == ColIndex(col)
  {
    if |col| == 0 {
      return Err(EmptyName);
    }
    if |col| == 1 {
      if !IsLetter(col[0]) {
        return Err(NotALetter);
      }
      return Ok(LetterIndex(col[0]));
    }
    if !IsLetter(col[0]) {
      return Err(NotALetter);
    }
    var indices: seq<nat> := [LetterIndex(col[0]) + 1];
    var k := 1;
    while k < |col|
      invariant 1 <= k <= |col|
      invariant AllLetters(col[..k])
      invariant indices == [LetterIndex(col[0]) + 1] + Indices(col[1..k])
    {
      if !IsLetter(col[k]) {
        return Err(NotALetter);
      }
      assert col[1..k + 1] == col[1..k] + [col[k]];
      indices := indices + [LetterIndex(col[k])];
      k := k + 1;
    }
    assert col[..k] == col && col[1..k] == col[1..];
    r := Ok(Value(indices));
  }

  function Reversed(s: seq<nat>): (r: seq<nat>)
    ensures |r| == |s|
    ensures AllDigits(s) ==> AllDigits(r)
  {
    if s == [] then [] else Reversed(s[1..]) + [s[0]]
  }

  lemma ReversedSnoc(s: seq<nat>, x: nat)
    ensures Reversed(s + [x]) == [x] + Reversed(s)
  {
    if s != [] {
      assert (s + [x])[1..] == s[1..] + [x];
      ReversedSnoc(s[1..], x);
    }
  }

  /** Decoding undoes encoding for every column index. */
  lemma {:induction false} RoundTrip(j: nat)
    ensures ColIndex(ColName(j)) == Ok(j)
  {
    if j >= 26 {
      var ds := Digits(j);
      var name := ColName(j);
      assert name[1..] == Letters(ds[1..]);
      IndicesOfLetters(ds[1..]);
      assert [LetterIndex(name[0]) + 1] + Indices(name[1..]) == ds;
      DigitsValue(j);
    }
  }

  /** Different indices get different names. */
  lemma ColNameInjective(a: nat, b: nat)
    requires ColName(a) == ColName(b)
    ensures a == b
  {
    RoundTrip(a);
    RoundTrip(b);
  }

  /** For j >= 26 the letters are the base-26 digits of j, most significant
      first, with the leading one lowered by one. */
  lemma ColNameDigits(j: nat)
    requires j >= 26
    ensures Indices(ColName(j)) == [Digits(j)[0] - 1] + Digits(j)[1..]
  {
    var ds := Digits(j);
    var name := ColName(j);
    var rest := Letters(ds[1..]);
    assert name == [Letter(ds[0] - 1)] + rest;
    var want := [ds[0] - 1] + ds[1..];
    forall k | 0 <= k < |name|
      ensures Indices(name)[k] == want[k]
    {
      if k > 0 {
        assert name[k] == rest[k - 1];
      }
    }
  }

  lemma IndicesOfLetters(ds: seq<nat>)
    requires AllDigits(ds)
    ensures Indices(Letters(ds)) == ds
  {
  }

  /** Concrete names: two-letter names start at 26, three-letter ones at 676. */
  lemma ColNameExamples()
    ensures ColName(0) == "A" && ColName(25) == "Z"
    ensures ColName(26) == "AA" && ColName(51) == "AZ" && ColName(52) == "BA"
    ensures ColName(675) == "YZ" && ColName(676) == "AAA" && ColName(701) == "AAZ"
  {
    assert Digits(26) == [1, 0];
    assert Digits(51) == [1, 25];
    assert Digits(52) == [2, 0];
    assert Digits(675) == [25, 25];
    assert Digits(676) == [1, 0, 0];
    assert Digits(701) == [1, 0, 25];
  }

  /** The decoder is a left inverse only: "ZA", which no index is encoded
      as, decodes to the same index as "AAA". Malformed names are errors. */
  lemma ColIndexExamples()
    ensures ColIndex("ZA") == Ok(676) && ColIndex("AAA") == Ok(676)
    ensures ColIndex("") == Err(EmptyName) && ColIndex("a") == Err(NotALetter)
    ensures ColIndex("A1") == Err(NotALetter)
  {
    assert "ZA"[1..] == "A" && "AAA"[1..] == "AA";
    assert Indices("A") == [0];
    assert Indices("AA") == [0, 0];
    assert [LetterIndex("ZA"[0]) + 1] + Indices("ZA"[1..]) == [26, 0];
    assert [LetterIndex("AAA"[0]) + 1] + Indices("AAA"[1..]) == [1, 0, 0];
    assert Value([26, 0]) == 676;
    assert Value([1, 0]) == 26 && Value([1, 0, 0]) == 676;
    assert !IsLetter("A1"[1]);
  }

  // ---------------------------------------------------------------------
  // Spreadsheet column names: bijective base 26

  /** The spreadsheet name of column j: A..Z, then AA..ZZ, then AAA.., each
      letter a digit from 1 to 26. */
  function BijName(j: nat): (name: string)
    ensures name != [] && AllLetters(name)
    decreases j
  {
    if j < 26 then [Letter(j)] else BijName(j / 26 - 1) + [Letter(j % 26)]
  }

  /** The column a non-empty string of letters names. */
  function BijValue(name: string): nat
    requires name != [] && AllLetters(name)
  {
    if |name| == 1 then LetterIndex(name[0])
    else (BijValue(name[..|name| - 1]) + 1) * 26 + LetterIndex(name[|name| - 1])
  }

  /** The decoder for spreadsheet names, with the errors of `ColIndex`. */
  function BijIndex(name: string): (r: Result<nat>)
    ensures r.Err? <==> name == [] || !AllLetters(name)
  {
    if name == [] then Err(EmptyName)
    else if AllLetters(name) then Ok(BijValue(name))
    else Err(NotALetter)
  }

  /** Decoding undoes encoding. */
  lemma {:induction false} BijRoundTrip(j: nat)
    ensures BijIndex(BijName(j)) == Ok(j)
    decreases j
  {
    if j >= 26 {
      var name := BijName(j);
      var init := BijName(j / 26 - 1);
      assert name[..|name| - 1] == init && name[|name| - 1] == Letter(j % 26);
      BijRoundTrip(j / 26 - 1);
    }
  }

  /** Every non-empty string of letters is the name of exactly one column:
      encoding undoes decoding. */
  lemma {:induction false} BijOnto(name: string)
    requires name != [] && AllLetters(name)
    ensures BijName(BijValue(name)) == name
    decreases |name|
  {
    if |name| > 1 {
      var init := name[..|name| - 1];
      var d := LetterIndex(name[|name| - 1]);
      var v := BijValue(name);
      assert v / 26 - 1 == BijValue(init) && v % 26 == d;
      BijOnto(init);
      assert name == init + [name[|name| - 1]];
    }
  }

  /** Where the encoder as written leaves spreadsheet naming: up to 675 the
      two agree, but 676 is "AAA" instead of "ZA", and the decoder reads
      both "ZA" and "AAA" as 676. */
  lemma ColNameSkipsZ()
    ensures ColName(675) == BijName(675) == "YZ"
    ensures ColName(676) == "AAA" && BijName(676) == "ZA" && BijName(702) == "AAA"
    ensures ColIndex("AAA") == Ok(676) && BijIndex("AAA") == Ok(702)
  {
    ColNameExamples();
    ColIndexExamples();
    assert BijName(675) == BijName(24) + [Letter(25)];
    assert BijName(676) == BijName(25) + [Letter(0)];
    assert BijName(702) == BijName(26) + [Letter(0)];
    assert BijName(26) == BijName(0) + [Letter(0)];
    assert "AAA"[..2] == "AA" && "AA"[..1] == "A";
  }
}
