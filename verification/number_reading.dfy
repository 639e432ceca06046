/**
 * The converter of module NumberWords read back by the reader of module
 * Numerals: every number below one thousand billion is converted to words
 * that read back as that same number, so the conversion loses nothing and
 * no two numbers share a rendering. The proof goes through the keys of the
 * word table that the converter looks up: the words are the spelling of
 * those keys, the reader maps each word back to its key, and folding the
 * keys as the reader does yields the number.
 */
module NumberReading {
  import opened Wrappers
  import opened Numerals
  import opened NumberWords

  // The table is checked word by word in seven slices rather than in one
  // lemma: each slice unfolds only a handful of table entries and reader
  // cases, which keeps every proof obligation small. WordReadsBack joins them.

  /** The table's units from zero to four are words that read back as their keys. */
  lemma SmallUnitsReadBack(k: nat)
    requires k in NumWords && k < 5
    ensures IsWord(NumWords[k]) && ValueOf(NumWords[k]) == Some(k)
  {
    if k == 0 {
      assert NumWords[k] == "zero";
      assert ValueOf(NumWords[k]) == Some(k);
    } else if k == 1 {
      assert NumWords[k] == "one";
      assert ValueOf(NumWords[k]) == Some(k);
    } else if k == 2 {
      assert NumWords[k] == "two";
      assert ValueOf(NumWords[k]) == Some(k);
    } else if k == 3 {
      assert NumWords[k] == "three";
      assert ValueOf(NumWords[k]) == Some(k);
    } else if k == 4 {
      assert NumWords[k] == "four";
      assert ValueOf(NumWords[k]) == Some(k);
    }
  }

  /** The table's units from five to nine are words that read back as their keys. */
  lemma LargeUnitsReadBack(k: nat)
    requires k in NumWords && 5 <= k < 10
    ensures IsWord(NumWords[k]) && ValueOf(NumWords[k]) == Some(k)
  {
    if k == 5 {
      assert NumWords[k] == "five";
      assert ValueOf(NumWords[k]) == Some(k);
    } else if k == 6 {
      assert NumWords[k] == "six";
      assert ValueOf(NumWords[k]) == Some(k);
    } else if k == 7 {
      assert NumWords[k] == "seven";
      assert ValueOf(NumWords[k]) == Some(k);
    } else if k == 8 {
      assert NumWords[k] == "eight";
      assert ValueOf(NumWords[k]) == Some(k);
    } else if k == 9 {
      assert NumWords[k] == "nine";
      assert ValueOf(NumWords[k]) == Some(k);
    }
  }

  /** The table's words from ten to fourteen are words that read back as their keys. */
  lemma SmallTeensReadBack(k: nat)
    requires k in NumWords && 10 <= k < 15
    ensures IsWord(NumWords[k]) && ValueOf(NumWords[k]) == Some(k)
  {
    if k == 10 {
      assert NumWords[k] == "ten";
      assert ValueOf(NumWords[k]) == Some(k);
    } else if k == 11 {
      assert NumWords[k] == "eleven";
      assert ValueOf(NumWords[k]) == Some(k);
    } else if k == 12 {
      assert NumWords[k] == "twelve";
      assert ValueOf(NumWords[k]) == Some(k);
    } else if k == 13 {
      assert NumWords[k] == "thirteen";
      assert ValueOf(NumWords[k]) == Some(k);
    } else if k == 14 {
      assert NumWords[k] == "fourteen";
      assert ValueOf(NumWords[k]) == Some(k);
    }
  }

  /** The table's words from fifteen to nineteen are words that read back as their keys. */
  lemma LargeTeensReadBack(k: nat)
    requires k in NumWords && 15 <= k < 20
    ensures IsWord(NumWords[k]) && ValueOf(NumWords[k]) == Some(k)
  {
    if k == 15 {
      assert NumWords[k] == "fifteen";
      assert ValueOf(NumWords[k]) == Some(k);
    } else if k == 16 {
      assert NumWords[k] == "sixteen";
      assert ValueOf(NumWords[k]) == Some(k);
    } else if k == 17 {
      assert NumWords[k] == "seventeen";
      assert ValueOf(NumWords[k]) == Some(k);
    } else if k == 18 {
      assert NumWords[k] == "eighteen";
      assert ValueOf(NumWords[k]) == Some(k);
    } else if k == 19 {
      assert NumWords[k] == "nineteen";
      assert ValueOf(NumWords[k]) == Some(k);
    }
  }

  /** The table's tens from twenty to fifty are words that read back as their keys. */
  lemma SmallTensReadBack(k: nat)
    requires k in NumWords && 20 <= k < 60
    ensures IsWord(NumWords[k]) && ValueOf(NumWords[k]) == Some(k)
  {
    if k == 20 {
      assert NumWords[k] == "twenty";
      assert ValueOf(NumWords[k]) == Some(k);
    } else if k == 30 {
      assert NumWords[k] == "thirty";
      assert ValueOf(NumWords[k]) == Some(k);
    } else if k == 40 {
      assert NumWords[k] == "forty";
      assert ValueOf(NumWords[k]) == Some(k);
    } else if k == 50 {
      assert NumWords[k] == "fifty";
      assert ValueOf(NumWords[k]) == Some(k);
    }
  }

  /** The table's tens from sixty to ninety are words that read back as their keys. */
  lemma LargeTensReadBack(k: nat)
    requires k in NumWords && 60 <= k < 100
    ensures IsWord(NumWords[k]) && ValueOf(NumWords[k]) == Some(k)
  {
    if k == 60 {
      assert NumWords[k] == "sixty";
      assert ValueOf(NumWords[k]) == Some(k);
    } else if k == 70 {
      assert NumWords[k] == "seventy";
      assert ValueOf(NumWords[k]) == Some(k);
    } else if k == 80 {
      assert NumWords[k] == "eighty";
      assert ValueOf(NumWords[k]) == Some(k);
    } else if k == 90 {
      assert NumWords[k] == "ninety";
      assert ValueOf(NumWords[k]) == Some(k);
    }
  }

  /** The table's scale words are words that read back as their keys. */
  lemma ScalesReadBack(k: nat)
    requires k in NumWords && k >= 100
    ensures IsWord(NumWords[k]) && ValueOf(NumWords[k]) == Some(k)
  {
    if k == 100 {
      assert NumWords[k] == "hundred";
      assert ValueOf(NumWords[k]) == Some(k);
    } else if k == 1000 {
      assert NumWords[k] == "thousand";
      assert ValueOf(NumWords[k]) == Some(k);
    } else if k == 1000000 {
      assert NumWords[k] == "million";
      assert ValueOf(NumWords[k]) == Some(k);
    } else if k == 1000000000 {
      assert NumWords[k] == "billion";
      assert ValueOf(NumWords[k]) == Some(k);
    }
  }

  /** The table and the reader agree: every table word is a word that reads back as its key. */
  lemma WordReadsBack(k: nat)
    requires k in NumWords
    ensures IsWord(NumWords[k]) && ValueOf(NumWords[k]) == Some(k)
  {
    if k < 5 {
      SmallUnitsReadBack(k);
    } else if k < 10 {
      LargeUnitsReadBack(k);
    } else if k < 15 {
      SmallTeensReadBack(k);
    } else if k < 20 {
      LargeTeensReadBack(k);
    } else if k < 60 {
      SmallTensReadBack(k);
    } else if k < 100 {
      LargeTensReadBack(k);
    } else {
      ScalesReadBack(k);
    }
  }

  /** Every key is a key of the word table. */
  predicate InTable(ks: seq<nat>)
  {
    forall i :: 0 <= i < |ks| ==> ks[i] in NumWords
  }

  /** The table keys whose words spell the hundreds of a group. */
  function HundredsKeys(n: nat): (r: seq<nat>)
    requires n < 1000
    ensures InTable(r)
  {
    if n / 100 != 0 then [n / 100, 100] else []
  }

  /** The table keys whose words spell a remainder below one hundred. */
  function RemainderKeys(n: nat): (r: seq<nat>)
    requires n < 100
    ensures InTable(r)
  {
    GroupLookupsDefined(n);
    if n == 0 then []
    else if n in NumWords then [n]
    else [n / 10 * 10, n % 10]
  }

  /** The table key of the scale word of a group, if any. */
  function ScaleKeys(divisor: nat): (r: seq<nat>)
    requires divisor in NumberList
    ensures InTable(r)
  {
    if divisor != 1 then [divisor] else []
  }

  /** The table keys of one group followed by its scale. */
  function GroupKeys(n: nat, divisor: nat): (r: seq<nat>)
    requires n < 1000 && divisor in NumberList
    ensures InTable(r)
  {
    HundredsKeys(n) + RemainderKeys(n % 100) + ScaleKeys(divisor)
  }

  /** The table keys of the words of `n`, group by group, as the converter emits them. */
  function Keys(n: nat): (r: seq<nat>)
    requires n < Limit
    ensures InTable(r)
    decreases n
  {
    if n == 0 then []
    else
      SplitIsExact(n);
      var scale := PickScale(n);
      GroupKeys(n / scale, scale) + Keys(if scale == 1 then 0 else n % scale)
  }

  /** The words of the table for the given keys. */
  function Spell(ks: seq<nat>): (r: seq<string>)
    requires InTable(ks)
    ensures |r| == |ks|
    decreases |ks|
  {
    if |ks| == 0 then [] else [NumWords[ks[0]]] + Spell(ks[1..])
  }

  /** Spelling distributes over concatenation. */
  lemma {:induction false} SpellAppend(a: seq<nat>, b: seq<nat>)
    requires InTable(a) && InTable(b)
    ensures InTable(a + b) && Spell(a + b) == Spell(a) + Spell(b)
    decreases |a|
  {
    assert InTable(a + b) by {
      forall i | 0 <= i < |a + b|
        ensures (a + b)[i] in NumWords
      {
        if i < |a| {
          assert (a + b)[i] == a[i];
        } else {
          assert (a + b)[i] == b[i - |a|];
        }
      }
    }
    if |a| == 0 {
      assert a + b == b;
    } else {
      assert (a + b)[0] == a[0];
      assert (a + b)[1..] == a[1..] + b;
      SpellAppend(a[1..], b);
    }
  }

  /** The reader knows every spelled word, with the key it was spelled from as its value. */
  lemma {:induction false} ValuesOfSpell(ks: seq<nat>)
    requires InTable(ks)
    ensures Values(Spell(ks)) == Some(ks)
    decreases |ks|
  {
    if |ks| == 0 {
    } else {
      var k := ks[0];
      assert ValueOf(NumWords[k]) == Some(k) by {
        WordReadsBack(k);
      }
      ValuesOfSpell(ks[1..]);
      ValuesCons(NumWords[k], k, Spell(ks[1..]), ks[1..]);
      assert [k] + ks[1..] == ks;
    }
  }

  /** Splitting at a space splits the words. */
  lemma TokensConcat(a: string, b: string)
    requires a == "" || a[|a| - 1] == ' '
    ensures Tokens(a + b) == Tokens(a) + Tokens(b)
  {
    if a == "" {
      assert a + b == b;
    } else {
      TokensAppend(a, b, "");
    }
  }

  /** A leading space contributes no word. */
  lemma TokensLeadingSpace(s: string)
    ensures Tokens(" " + s) == Tokens(s)
  {
    assert (" " + s)[1..] == s;
  }

  /** The words of a table word followed by a space and then `rest`. */
  lemma TokensTableWord(k: nat, rest: string)
    requires k in NumWords
    ensures Tokens(NumWords[k] + " " + rest) == [NumWords[k]] + Tokens(rest)
  {
    WordReadsBack(k);
    TokensOfWord(NumWords[k], rest, "");
    assert "" + NumWords[k] == NumWords[k];
  }

  /** The words of a table word followed by a space. */
  lemma TokensLastTableWord(k: nat)
    requires k in NumWords
    ensures Tokens(NumWords[k] + " ") == [NumWords[k]]
  {
    TokensTableWord(k, "");
    assert NumWords[k] + " " + "" == NumWords[k] + " ";
    assert Tokens("") == [];
  }

  /** The hundreds of a group split into the words of their keys. */
  lemma TokensOfHundreds(n: nat)
    requires n < 1000
    ensures Tokens(HundredsPart(n)) == Spell(HundredsKeys(n))
  {
    if n / 100 != 0 {
      var d := n / 100;
      var rest := NumWords[100] + " ";
      var s := NumWords[d] + " " + rest;
      assert HundredsPart(n) == " " + s;
      TokensLeadingSpace(s);
      TokensTableWord(d, rest);
      TokensLastTableWord(100);
      assert Spell([d, 100]) == [NumWords[d], NumWords[100]] by {
        assert [d, 100][1..] == [100];
      }
    } else {
      assert Tokens("") == [];
    }
  }

  /** A remainder below one hundred splits into the words of its keys. */
  lemma TokensOfRemainder(n: nat)
    requires n < 100
    ensures Tokens(RemainderPart(n)) == Spell(RemainderKeys(n))
  {
    if n == 0 {
      assert Tokens("") == [];
    } else if n in NumWords {
      TokensLastTableWord(n);
    } else {
      GroupLookupsDefined(n);
      var tens, units := n / 10 * 10, n % 10;
      var rest := NumWords[units] + " ";
      assert RemainderPart(n) == NumWords[tens] + " " + rest;
      TokensTableWord(tens, rest);
      TokensLastTableWord(units);
      assert Spell([tens, units]) == [NumWords[tens], NumWords[units]] by {
        assert [tens, units][1..] == [units];
      }
    }
  }

  /** A scale part splits into the word of its key. */
  lemma TokensOfScale(divisor: nat)
    requires divisor in NumberList
    ensures Tokens(ScalePart(divisor)) == Spell(ScaleKeys(divisor))
  {
    if divisor != 1 {
      TokensLastTableWord(divisor);
    } else {
      assert Tokens("") == [];
    }
  }

  /** Three pieces, the first two ending at a space, split into their words in turn. */
  lemma TokensOfPieces(h: string, m: string, s: string, hw: seq<string>, mw: seq<string>, sw: seq<string>)
    requires h == "" || h[|h| - 1] == ' '
    requires m == "" || m[|m| - 1] == ' '
    requires Tokens(h) == hw && Tokens(m) == mw && Tokens(s) == sw
    ensures Tokens(h + m + s) == hw + mw + sw
  {
    assert h + m + s == h + (m + s);
    TokensConcat(m, s);
    TokensConcat(h, m + s);
  }

  /** A rendered group splits into the words of the keys of the group and its scale. */
  lemma TokensOfGroup(n: nat, divisor: nat)
    requires n < 1000 && divisor in NumberList
    ensures Tokens(CreateStringFromNum(Some(n), divisor)) == Spell(GroupKeys(n, divisor))
  {
    var h, m, s := HundredsKeys(n), RemainderKeys(n % 100), ScaleKeys(divisor);
    TokensOfHundreds(n);
    TokensOfRemainder(n % 100);
    TokensOfScale(divisor);
    TokensOfPieces(HundredsPart(n), RemainderPart(n % 100), ScalePart(divisor),
                   Spell(h), Spell(m), Spell(s));
    SpellAppend(h, m);
    SpellAppend(h + m, s);
  }

  /** The converted string splits into the words of the keys of its groups. */
  lemma {:induction false} TokensOfConvert(n: nat)
    requires n < Limit
    ensures Tokens(ConvertString(n)) == Spell(Keys(n))
    decreases n
  {
    if n == 0 {
      assert Tokens("") == [];
    } else {
      var scale := PickScale(n);
      var rest := if scale == 1 then 0 else n % scale;
      var g := CreateStringFromNum(Some(n / scale), scale);
      assert ConvertString(n) == g + ConvertString(rest);
      TokensConcat(g, ConvertString(rest));
      TokensOfGroup(n / scale, scale);
      TokensOfConvert(rest);
      SpellAppend(GroupKeys(n / scale, scale), Keys(rest));
    }
  }

  /** Reading two values is two steps. */
  lemma FoldTwo(t: Tally, a: nat, b: nat)
    ensures Fold(t, [a, b]) == Step(Step(t, a), b)
  {
    assert [a, b][1..] == [b];
    assert [b][1..] == [];
    assert Fold(t, [a, b]) == Fold(Step(t, a), [b]);
    assert Fold(Step(t, a), [b]) == Fold(Step(Step(t, a), b), []);
  }

  /** The hundreds of a group put its hundreds into an empty current group. */
  lemma FoldHundreds(t: Tally, n: nat)
    requires n < 1000
    requires n >= 100 ==> t.current == 0
    ensures Fold(t, HundredsKeys(n)) == Tally(t.total, t.current + n / 100 * 100)
  {
    if n >= 100 {
      var d := n / 100;
      FoldTwo(t, d, 100);
    }
  }

  /** A remainder below one hundred adds itself to the current group. */
  lemma FoldRemainder(t: Tally, n: nat)
    requires n < 100
    ensures Fold(t, RemainderKeys(n)) == Tally(t.total, t.current + n)
  {
    if n != 0 && n !in NumWords {
      var tens, units := n / 10 * 10, n % 10;
      FoldTwo(t, tens, units);
    }
  }

  /** The digits of a group below one thousand add the group to an empty or small current group. */
  lemma FoldDigits(t: Tally, n: nat)
    requires n < 1000
    requires n >= 100 ==> t.current == 0
    ensures Fold(t, HundredsKeys(n) + RemainderKeys(n % 100)) == Tally(t.total, t.current + n)
  {
    FoldAppend(t, HundredsKeys(n), RemainderKeys(n % 100));
    FoldHundreds(t, n);
    FoldRemainder(Tally(t.total, t.current + n / 100 * 100), n % 100);
  }

  /** The scale of a group: none for one, otherwise it applies that scale. */
  lemma FoldScale(t: Tally, divisor: nat)
    requires divisor in NumberList
    ensures divisor == 1 ==> Fold(t, ScaleKeys(divisor)) == t
    ensures divisor == 100 ==> Fold(t, ScaleKeys(divisor)) == Tally(t.total, t.current * 100)
    ensures divisor >= 1000 ==> Fold(t, ScaleKeys(divisor)) == Tally(t.total + t.current * divisor, 0)
  {
  }

  /** Peeling off a scale of a thousand or more leaves the last three digits alone. */
  lemma ScaleSplit(n: nat, scale: nat)
    requires scale == 1000 || scale == 1000000 || scale == 1000000000
    ensures n / 1000 * 1000 == n / scale * scale + n % scale / 1000 * 1000
    ensures n % 1000 == n % scale % 1000
  {
    if scale == 1000000 {
      var q, m := n / 1000000, n % 1000000;
      assert n == q * 1000000 + m;
    } else if scale == 1000000000 {
      var q, m := n / 1000000000, n % 1000000000;
      assert n == q * 1000000000 + m;
    }
  }

  /** Reading one group adds it to the current group before its scale applies. */
  lemma FoldGroup(t: Tally, q: nat, scale: nat)
    requires q < 1000 && scale in NumberList
    requires q >= 100 ==> t.current == 0
    ensures Fold(t, GroupKeys(q, scale)) == Fold(Tally(t.total, t.current + q), ScaleKeys(scale))
  {
    var digits := HundredsKeys(q) + RemainderKeys(q % 100);
    FoldAppend(t, digits, ScaleKeys(scale));
    FoldDigits(t, q);
  }

  /** The keys of `n` are read as its first group, that group's scale, and then the keys of the rest. */
  lemma FoldKeysSplit(t: Tally, n: nat)
    requires 0 < n < Limit
    requires n >= 100 ==> t.current == 0
    ensures var scale := PickScale(n);
            var rest := if scale == 1 then 0 else n % scale;
            Fold(t, Keys(n)) == Fold(Fold(Tally(t.total, t.current + n / scale), ScaleKeys(scale)), Keys(rest))
  {
    var scale := PickScale(n);
    var q := n / scale;
    var rest := if scale == 1 then 0 else n % scale;
    var group := GroupKeys(q, scale);
    var tail := Keys(rest);
    var t2 := Fold(Tally(t.total, t.current + q), ScaleKeys(scale));
    assert Keys(n) == group + tail;
    assert Fold(t, group + tail) == Fold(Fold(t, group), tail) by { FoldAppend(t, group, tail); }
    assert Fold(t, group) == t2 by {
      assert q < 1000 && (q >= 100 ==> t.current == 0) by { SplitIsExact(n); }
      FoldGroup(t, q, scale);
    }
  }

  /**
   * After the first group and its scale, the tally plus what the rest
   * contributes is the tally plus what `n` contributes.
   */
  lemma FoldAfterGroup(t: Tally, n: nat)
    requires 0 < n < Limit
    requires n >= 100 ==> t.current == 0
    ensures var scale := PickScale(n);
            var rest := if scale == 1 then 0 else n % scale;
            var t2 := Fold(Tally(t.total, t.current + n / scale), ScaleKeys(scale));
            rest < n && (rest >= 100 ==> t2.current == 0) &&
            Tally(t2.total + rest / 1000 * 1000, t2.current + rest % 1000)
              == Tally(t.total + n / 1000 * 1000, t.current + n % 1000)
  {
    var scale := PickScale(n);
    var q := n / scale;
    var t1 := Tally(t.total, t.current + q);
    FoldScale(t1, scale);
    SplitIsExact(n);
    if scale == 1 {
      assert n < 100;
    } else if scale == 100 {
      assert n == q * 100 + n % 100;
    } else {
      assert t1 == Tally(t.total, q);
      ScaleSplit(n, scale);
    }
  }

  /**
   * Reading the keys of `n` adds everything above the last three digits to
   * the total and the last three digits to the current group.
   */
  lemma {:induction false} FoldKeys(t: Tally, n: nat)
    requires n < Limit
    requires n >= 100 ==> t.current == 0
    ensures Fold(t, Keys(n)) == Tally(t.total + n / 1000 * 1000, t.current + n % 1000)
    decreases n
  {
    if n != 0 {
      var scale := PickScale(n);
      var rest := if scale == 1 then 0 else n % scale;
      var t2 := Fold(Tally(t.total, t.current + n / scale), ScaleKeys(scale));
      FoldKeysSplit(t, n);
      FoldAfterGroup(t, n);
      FoldKeys(t2, rest);
    }
  }

  /** Words the reader knows whose values fold to the number's parts denote the number. */
  lemma ReadOfFold(ws: seq<string>, ks: seq<nat>, n: nat)
    requires Values(ws) == Some(ks)
    requires Fold(Tally(0, 0), ks) == Tally(n / 1000 * 1000, n % 1000)
    ensures Read(ws) == Some(n)
  {
    assert Number(Tally(n / 1000 * 1000, n % 1000)) == n;
  }

  /** The words produced for any number below one thousand billion read back as that number. */
  lemma ReadsBack(n: nat)
    requires n < Limit
    ensures Read(Tokens(ConvertString(n))) == Some(n)
  {
    TokensOfConvert(n);
    ValuesOfSpell(Keys(n));
    FoldKeys(Tally(0, 0), n);
    ReadOfFold(Spell(Keys(n)), Keys(n), n);
  }

  /** Two different numbers never receive the same words. */
  lemma ConvertInjective(a: nat, b: nat)
    requires a < Limit && b < Limit
    ensures ConvertString(a) == ConvertString(b) <==> a == b
  {
    if ConvertString(a) == ConvertString(b) {
      ReadsBack(a);
      ReadsBack(b);
    }
  }

  /** The groups of 65732007 as table keys. */
  lemma KeysExample()
    ensures GroupKeys(65, 1000000) == [60, 5, 1000000]
    ensures GroupKeys(732, 1000) == [7, 100, 30, 2, 1000]
    ensures GroupKeys(7, 1) == [7]
  {
    assert HundredsKeys(732) == [7, 100];
    assert RemainderKeys(32) == [30, 2];
    assert RemainderKeys(65) == [60, 5];
  }
}
