/**
 * The number-to-English-words converter: `ConvertString` peels off the
 * largest scale (billion, million, thousand, hundred, one) that fits into
 * the number, renders the quotient with `CreateStringFromNum`, and recurses
 * on the remainder. The strings are modelled exactly, including the stray
 * spaces the code emits; the properties about their meaning are stated
 * through the word splitter and reader of module Numerals.
 */
module NumberWords {
  import opened Wrappers
  import opened Numerals

  /** The word table: zero to twenty, the tens, and the scale words. */
  const NumWords: map<nat, string> := map[
    0 := "zero", 1 := "one", 2 := "two", 3 := "three", 4 := "four",
    5 := "five", 6 := "six", 7 := "seven", 8 := "eight", 9 := "nine",
    10 := "ten", 11 := "eleven", 12 := "twelve", 13 := "thirteen",
    14 := "fourteen", 15 := "fifteen", 16 := "sixteen", 17 := "seventeen",
    18 := "eighteen", 19 := "nineteen", 20 := "twenty", 30 := "thirty",
    40 := "forty", 50 := "fifty", 60 := "sixty", 70 := "seventy",
    80 := "eighty", 90 := "ninety", 100 := "hundred", 1000 := "thousand",
    1000000 := "million", 1000000000 := "billion"]

  /** The scales tried by the converter, largest first. */
  const NumberList: seq<nat> := [1000000000, 1000000, 1000, 100, 1]

  /** One thousand billion: the converter is modelled below this bound. */
  const Limit: nat := 1000000000000

  /**
   * Every table lookup made while rendering a group below one thousand is on
   * a key the table holds: the hundreds digit, a remainder that is itself a
   * key, or else its tens and its units.
   */
  lemma GroupLookupsDefined(n: nat)
    requires n < 1000
    ensures n / 100 != 0 ==> n / 100 in NumWords
    ensures n % 100 !in NumWords ==> 20 < n % 100 && n % 10 != 0
    ensures n % 100 !in NumWords ==> n % 100 / 10 * 10 in NumWords && n % 10 in NumWords
  {
    var r := n % 100;
    assert r % 10 == n % 10;
    if r <= 20 {
      assert r in NumWords;
    } else if r % 10 == 0 {
      assert r == r / 10 * 10;
      assert r in NumWords;
    } else {
      assert r / 10 * 10 in NumWords;
    }
  }

  /** The words for the hundreds of a group below one thousand. */
  function HundredsPart(n: nat): (r: string)
    requires n < 1000
    ensures n < 100 <==> r == ""
    ensures r != "" ==> r[0] == ' ' && r[|r| - 1] == ' '
  {
    if n / 100 != 0 then " " + NumWords[n / 100] + " " + NumWords[100] + " " else ""
  }

  /** The words for a remainder below one hundred: one table word, or tens then units. */
  function RemainderPart(n: nat): (r: string)
    requires n < 100
    ensures n == 0 <==> r == ""
    ensures r != "" ==> r[|r| - 1] == ' '
  {
    if n != 0 then
      if n in NumWords then NumWords[n] + " "
      else NumWords[n / 10 * 10] + " " + NumWords[n % 10] + " "
    else ""
  }

  /** The scale word, present exactly when the divisor is not one. */
  function ScalePart(divisor: nat): (r: string)
    requires divisor in NumberList
    ensures divisor == 1 <==> r == ""
    ensures r != "" ==> r[|r| - 1] == ' '
  {
    if divisor != 1 then NumWords[divisor] + " " else ""
  }

  /**
   * Renders one group below one thousand followed by its scale word; the
   * code's None group renders as the empty string.
   */
  function CreateStringFromNum(number: Option<nat>, divisor: nat): (r: string)
    requires divisor in NumberList
    requires number.Some? ==> number.value < 1000
    ensures number.None? ==> r == ""
    ensures number.Some? && (number.value != 0 || divisor != 1) ==> r != ""
    ensures r != "" ==> r[|r| - 1] == ' '
  {
    match number
    case None => ""
    case Some(n) => HundredsPart(n) + RemainderPart(n % 100) + ScalePart(divisor)
  }

  /**
   * The first scale of NumberList that fits into `n`; as the list is in
   * decreasing order, it is the largest scale not above `n`.
   */
  function PickScale(n: nat): (r: nat)
    requires n > 0
    ensures r in NumberList && 0 < r <= n && n / r != 0
    ensures exists i :: 0 <= i < |NumberList| && NumberList[i] == r &&
              forall j :: 0 <= j < i ==> n / NumberList[j] == 0
    ensures forall s :: s in NumberList && s <= n ==> s <= r
  {
    if n / 1000000000 != 0 then 1000000000
    else if n / 1000000 != 0 then 1000000
    else if n / 1000 != 0 then 1000
    else if n / 100 != 0 then 100
    else 1
  }

  /**
   * The English words for `n`: the empty string for zero, otherwise the
   * largest fitting scale's group followed by the words for the remainder.
   */
  function ConvertString(n: nat): (r: string)
    requires n < Limit
    ensures n == 0 <==> r == ""
    ensures r != "" ==> r[|r| - 1] == ' '
    decreases n
  {
    if n == 0 then ""
    else
      SplitIsExact(n);
      var scale := PickScale(n);
      var reminder := n / scale;
      var rest := if scale == 1 then 0 else n % scale;
      CreateStringFromNum(Some(reminder), scale) + ConvertString(rest)
  }

  /**
   * The split made by ConvertString is exact: the group times its scale plus
   * the remainder passed on is the number, the remainder is below the scale
   * (so smaller than the number), and the group is below one thousand.
   */
  lemma SplitIsExact(n: nat)
    requires 0 < n < Limit
    ensures var scale := PickScale(n);
            var rest := if scale == 1 then 0 else n % scale;
            n == n / scale * scale + rest && rest < scale && rest < n && n / scale < 1000
  {
    var scale := PickScale(n);
    if scale == 1000000000 {
      assert n == n / 1000000000 * 1000000000 + n % 1000000000;
    } else if scale == 1000000 {
      assert n == n / 1000000 * 1000000 + n % 1000000;
    } else if scale == 1000 {
      assert n == n / 1000 * 1000 + n % 1000;
    } else if scale == 100 {
      assert n == n / 100 * 100 + n % 100;
    }
  }

  /**
   * The number the program prints: 65732007 renders as three groups, sixty
   * five million, seven hundred thirty two thousand, and seven.
   */
  lemma ConvertExample()
    ensures ConvertString(65732007)
         == CreateStringFromNum(Some(65), 1000000)
          + (CreateStringFromNum(Some(732), 1000) + CreateStringFromNum(Some(7), 1))
  {
    var seven := CreateStringFromNum(Some(7), 1);
    assert ConvertString(7) == seven by {
      assert PickScale(7) == 1;
      assert ConvertString(7) == seven + ConvertString(0);
    }
    var thousands := CreateStringFromNum(Some(732), 1000);
    assert ConvertString(732007) == thousands + seven by {
      assert PickScale(732007) == 1000;
      assert ConvertString(732007) == thousands + ConvertString(7);
    }
    var millions := CreateStringFromNum(Some(65), 1000000);
    assert ConvertString(65732007) == millions + (thousands + seven) by {
      assert PickScale(65732007) == 1000000;
      assert ConvertString(65732007) == millions + ConvertString(732007);
    }
  }
}
