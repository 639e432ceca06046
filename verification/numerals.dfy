/**
 * A reader for English number phrases, independent of the converter that
 * produces them: a phrase is split into words at spaces, and the words are
 * folded into a number the way an English speaker reads them ("sixty five
 * million seven hundred ..."). The converter is proved against this reader.
 */
module Numerals {
  import opened Wrappers

  /** The value of a word, if the reader knows it. */
  function ValueOf(w: string): Option<nat>
  {
    match w
    case "zero" => Some(0)
    case "one" => Some(1)
    case "two" => Some(2)
    case "three" => Some(3)
    case "four" => Some(4)
    case "five" => Some(5)
    case "six" => Some(6)
    case "seven" => Some(7)
    case "eight" => Some(8)
    case "nine" => Some(9)
    case "ten" => Some(10)
    case "eleven" => Some(11)
    case "twelve" => Some(12)
    case "thirteen" => Some(13)
    case "fourteen" => Some(14)
    case "fifteen" => Some(15)
    case "sixteen" => Some(16)
    case "seventeen" => Some(17)
    case "eighteen" => Some(18)
    case "nineteen" => Some(19)
    case "twenty" => Some(20)
    case "thirty" => Some(30)
    case "forty" => Some(40)
    case "fifty" => Some(50)
    case "sixty" => Some(60)
    case "seventy" => Some(70)
    case "eighty" => Some(80)
    case "ninety" => Some(90)
    case "hundred" => Some(100)
    case "thousand" => Some(1000)
    case "million" => Some(1000000)
    case "billion" => Some(1000000000)
    case _ => None
  }

  /** A word: non-empty and free of spaces. */
  predicate IsWord(w: string)
  {
    |w| > 0 && forall i :: 0 <= i < |w| ==> w[i] != ' '
  }

  /** The pending word, if there is one, as a list of words. */
  function Flush(word: string): (r: seq<string>)
    requires forall i :: 0 <= i < |word| ==> word[i] != ' '
    ensures forall j :: 0 <= j < |r| ==> IsWord(r[j])
    ensures |r| <= 1 && (|r| == 1 <==> word != "")
  {
    if word == "" then [] else [word]
  }

  /**
   * The words of `s`, where `word` is the part of a word already read
   * before `s`. Runs of spaces separate words; leading and trailing
   * spaces produce no empty word.
   */
  function TokensFrom(s: string, word: string): (r: seq<string>)
    requires forall i :: 0 <= i < |word| ==> word[i] != ' '
    decreases |s|
  {
    if |s| == 0 then Flush(word)
    else if s[0] == ' ' then Flush(word) + TokensFrom(s[1..], "")
    else TokensFrom(s[1..], word + [s[0]])
  }

  /** The words of `s`, split at spaces. */
  function Tokens(s: string): (r: seq<string>)
  {
    TokensFrom(s, "")
  }

  /** A string that ends in a space splits independently of what follows it. */
  lemma {:induction false} TokensAppend(a: string, b: string, word: string)
    requires forall i :: 0 <= i < |word| ==> word[i] != ' '
    requires |a| > 0 && a[|a| - 1] == ' '
    ensures TokensFrom(a + b, word) == TokensFrom(a, word) + Tokens(b)
    decreases |a|
  {
    assert (a + b)[0] == a[0];
    assert (a + b)[1..] == a[1..] + b;
    if |a| == 1 {
      assert a[1..] == [];
      assert TokensFrom(a, word) == Flush(word) + TokensFrom([], "");
    } else if a[0] == ' ' {
      TokensAppend(a[1..], b, "");
    } else {
      TokensAppend(a[1..], b, word + [a[0]]);
    }
  }

  /** A word followed by a space is read as that one word. */
  lemma {:induction false} TokensOfWord(w: string, rest: string, word: string)
    requires forall i :: 0 <= i < |word| ==> word[i] != ' '
    requires forall i :: 0 <= i < |w| ==> w[i] != ' '
    requires |word + w| > 0
    ensures TokensFrom(w + " " + rest, word) == [word + w] + Tokens(rest)
    decreases |w|
  {
    var s := w + " " + rest;
    if |w| == 0 {
      assert s == " " + rest;
      assert s[1..] == rest;
      assert word + w == word;
    } else {
      assert s[0] == w[0];
      assert s[1..] == w[1..] + " " + rest;
      TokensOfWord(w[1..], rest, word + [w[0]]);
      assert (word + [w[0]]) + w[1..] == word + w;
    }
  }

  /** The words of `w + " "` for a single word `w`. */
  lemma SingleWord(w: string)
    requires IsWord(w)
    ensures Tokens(w + " ") == [w]
  {
    TokensOfWord(w, "", "");
    assert w + " " + "" == w + " ";
    assert "" + w == w;
  }

  /** The values of the words in order, or None if some word is unknown. */
  function Values(ws: seq<string>): (r: Option<seq<nat>>)
    ensures r.Some? ==> |r.value| == |ws|
    decreases |ws|
  {
    if |ws| == 0 then Some([])
    else match ValueOf(ws[0])
      case None => None
      case Some(v) =>
        match Values(ws[1..])
        case None => None
        case Some(vs) => Some([v] + vs)
  }

  /** What has been read so far: the finished scale groups and the group being read. */
  datatype Tally = Tally(total: nat, current: nat)

  /**
   * Reads one value: a value below one hundred adds to the current group,
   * one hundred multiplies it, and a scale (a thousand or more) closes the
   * group into the total.
   */
  function Step(t: Tally, v: nat): Tally
  {
    if v == 100 then Tally(t.total, t.current * 100)
    else if v >= 1000 then Tally(t.total + t.current * v, 0)
    else Tally(t.total, t.current + v)
  }

  /** The number a finished reading denotes: the total plus the group still open. */
  function Number(t: Tally): nat
  {
    t.total + t.current
  }

  /** Reads the values in order, starting from `t`. */
  function Fold(t: Tally, vs: seq<nat>): Tally
    decreases |vs|
  {
    if |vs| == 0 then t else Fold(Step(t, vs[0]), vs[1..])
  }

  /** The number a list of words denotes, or None if a word is unknown. */
  function Read(ws: seq<string>): (r: Option<nat>)
    ensures r.Some? <==> Values(ws).Some?
  {
    match Values(ws)
    case None => None
    case Some(vs) => Some(Number(Fold(Tally(0, 0), vs)))
  }

  /** A known word in front of known words. */
  lemma ValuesCons(w: string, v: nat, ws: seq<string>, vs: seq<nat>)
    requires ValueOf(w) == Some(v) && Values(ws) == Some(vs)
    ensures Values([w] + ws) == Some([v] + vs)
  {
    assert ([w] + ws)[0] == w;
    assert ([w] + ws)[1..] == ws;
  }

  /** Known words, put side by side, have their values side by side. */
  lemma {:induction false} ValuesAppend(a: seq<string>, b: seq<string>, va: seq<nat>, vb: seq<nat>)
    requires Values(a) == Some(va) && Values(b) == Some(vb)
    ensures Values(a + b) == Some(va + vb)
    decreases |a|
  {
    if |a| == 0 {
      assert a + b == b;
      assert va + vb == vb;
    } else {
      var w, v := a[0], va[0];
      assert ValueOf(w) == Some(v) && Values(a[1..]) == Some(va[1..]);
      ValuesAppend(a[1..], b, va[1..], vb);
      ValuesCons(w, v, a[1..] + b, va[1..] + vb);
      assert a + b == [w] + (a[1..] + b);
      assert va + vb == [v] + (va[1..] + vb);
    }
  }

  /** Reading two lists of values one after the other is reading their concatenation. */
  lemma {:induction false} FoldAppend(t: Tally, a: seq<nat>, b: seq<nat>)
    ensures Fold(t, a + b) == Fold(Fold(t, a), b)
    decreases |a|
  {
    if |a| == 0 {
      assert a + b == b;
    } else {
      assert (a + b)[0] == a[0];
      assert (a + b)[1..] == a[1..] + b;
      FoldAppend(Step(t, a[0]), a[1..], b);
    }
  }
}
