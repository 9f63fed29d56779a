/**
 * The follower-frequency record of WordFreqInfo.java: for one word, how often it occurred as a
 * non-final token and, for each word seen right after it, how often that happened.
 */
module WordFreq {
  import opened Wrappers
  import opened Decimal

  /** `WordFreqInfo.Freq`: a follow word and its count. */
  datatype Freq = Freq(follow: string, followCt: int) {
    /**
     * `Freq.toString`: the follow word, a space and the count in brackets, then a space. The text
     * starts with the word and ends with "] ", and what lies between " [" and "] " reads back as
     * the count (see `IntToString`).
     */
    function ToString(): (r: string)
      ensures |r| >= |follow| + 5 && r[..|follow|] == follow && r[|r| - 2..] == "] "
      ensures r[|follow|..|follow| + 2] == " [" && r[|follow| + 2..|r| - 2] == IntToString(followCt)
    {
      var count := IntToString(followCt);
      var r := follow + " [" + count + "] ";
      assert r[|follow| + 2..|r| - 2] == count;
      r
    }

    /** `Freq.equals`: two records are equal when their follow words are; the counts are ignored. */
    predicate Equals(f2: Freq): (r: bool)
      ensures r <==> this.(followCt := f2.followCt) == f2
    {
      follow == f2.follow
    }
  }

  /** `Freq.equals` is an equivalence relation that ignores counts. */
  lemma FreqEqualsEquivalence(a: Freq, b: Freq, c: Freq, n: int)
    ensures a.Equals(a) && a.Equals(a.(followCt := n))
    ensures a.Equals(b) <==> b.Equals(a)
    ensures a.Equals(b) && b.Equals(c) ==> a.Equals(c)
    ensures a.Equals(b) <==> a.follow == b.follow
  {
  }

  /** The total of the follow counts of a list. */
  function Sum(list: seq<Freq>): int {
    if |list| == 0 then 0 else list[0].followCt + Sum(list[1..])
  }

  /** How many times w has been recorded as a follower: the counts of the entries for w. */
  function CountOf(list: seq<Freq>, w: string): int {
    if |list| == 0 then 0 else (if list[0].follow == w then list[0].followCt else 0) + CountOf(list[1..], w)
  }

  /** No two entries are `equals`: every follow word has at most one entry. */
  predicate DistinctFollows(list: seq<Freq>) {
    forall i, j :: 0 <= i < j < |list| ==> !list[i].Equals(list[j])
  }

  /** Every entry has been counted at least once. */
  predicate PositiveCounts(list: seq<Freq>) {
    forall i :: 0 <= i < |list| ==> list[i].followCt >= 1
  }

  /** The index of the first entry whose follow word is f, if any. */
  function FindFollow(list: seq<Freq>, f: string): (r: Option<nat>)
    ensures r.Some? ==> r.value < |list| && list[r.value].follow == f
    ensures r.Some? ==> forall j :: 0 <= j < r.value ==> list[j].follow != f
    ensures r.None? <==> forall j :: 0 <= j < |list| ==> list[j].follow != f
  {
    if |list| == 0 then None
    else if list[0].follow == f then Some(0)
    else match FindFollow(list[1..], f)
      case None => None
      case Some(k) => Some(k + 1)
  }

  /**
   * The list after `updateFollows(f)`: the count of the first entry for f goes up by one, or,
   * when there is none, the entry (f, 1) is appended.
   */
  function Bumped(list: seq<Freq>, f: string): seq<Freq> {
    match FindFollow(list, f)
    case Some(k) => list[k := list[k].(followCt := list[k].followCt + 1)]
    case None => list + [Freq(f, 1)]
  }

  /** Replacing one entry changes the total by the difference of the counts. */
  lemma {:induction false} SumUpdate(list: seq<Freq>, k: nat, e: Freq)
    requires k < |list|
    ensures Sum(list[k := e]) == Sum(list) - list[k].followCt + e.followCt
  {
    if k > 0 {
      SumUpdate(list[1..], k - 1, e);
      assert list[k := e][1..] == list[1..][k - 1 := e];
    }
  }

  /** Appending an entry adds its count to the total. */
  lemma {:induction false} SumAppend(list: seq<Freq>, e: Freq)
    ensures Sum(list + [e]) == Sum(list) + e.followCt
  {
    if |list| > 0 {
      SumAppend(list[1..], e);
      assert (list + [e])[1..] == list[1..] + [e];
    }
  }

  /** Replacing one entry changes the count of w by what the two entries contribute to it. */
  lemma {:induction false} CountOfUpdate(list: seq<Freq>, k: nat, e: Freq, w: string)
    requires k < |list|
    ensures CountOf(list[k := e], w)
            == CountOf(list, w) - (if list[k].follow == w then list[k].followCt else 0)
               + (if e.follow == w then e.followCt else 0)
  {
    if k > 0 {
      CountOfUpdate(list[1..], k - 1, e, w);
      assert list[k := e][1..] == list[1..][k - 1 := e];
    }
  }

  /** Appending an entry adds what it contributes to the count of w. */
  lemma {:induction false} CountOfAppend(list: seq<Freq>, e: Freq, w: string)
    ensures CountOf(list + [e], w) == CountOf(list, w) + (if e.follow == w then e.followCt else 0)
  {
    if |list| > 0 {
      CountOfAppend(list[1..], e, w);
      assert (list + [e])[1..] == list[1..] + [e];
    }
  }

  /** A follow word with no entry has count zero. */
  lemma {:induction false} CountOfAbsent(list: seq<Freq>, w: string)
    requires forall j :: 0 <= j < |list| ==> list[j].follow != w
    ensures CountOf(list, w) == 0
  {
    if |list| > 0 {
      CountOfAbsent(list[1..], w);
    }
  }

  /** With positive counts, every follow word that has an entry has a positive count. */
  lemma {:induction false} CountOfPositive(list: seq<Freq>, k: nat)
    requires PositiveCounts(list) && k < |list|
    ensures CountOf(list, list[k].follow) > 0
  {
    if k > 0 {
      CountOfPositive(list[1..], k - 1);
      CountOfNonNegative(list[1..], list[k].follow);
    } else {
      CountOfNonNegative(list[1..], list[0].follow);
    }
  }

  /** With positive counts, no count is negative. */
  lemma {:induction false} CountOfNonNegative(list: seq<Freq>, w: string)
    requires PositiveCounts(list)
    ensures CountOf(list, w) >= 0
  {
    if |list| > 0 {
      CountOfNonNegative(list[1..], w);
    }
  }

  /** `updateFollows(f)` adds exactly one to the total of the follow counts. */
  lemma BumpedSum(list: seq<Freq>, f: string)
    ensures Sum(Bumped(list, f)) == Sum(list) + 1
  {
    match FindFollow(list, f)
    case Some(k) => SumUpdate(list, k, list[k].(followCt := list[k].followCt + 1));
    case None => SumAppend(list, Freq(f, 1));
  }

  /** `updateFollows(f)` records one more f and leaves the count of every other word alone. */
  lemma BumpedCount(list: seq<Freq>, f: string, w: string)
    ensures CountOf(Bumped(list, f), w) == CountOf(list, w) + (if w == f then 1 else 0)
  {
    match FindFollow(list, f)
    case Some(k) => CountOfUpdate(list, k, list[k].(followCt := list[k].followCt + 1), w);
    case None => CountOfAppend(list, Freq(f, 1), w);
  }

  /** `updateFollows` keeps the follow words pairwise distinct and the counts positive. */
  lemma BumpedKeepsShape(list: seq<Freq>, f: string)
    requires DistinctFollows(list) && PositiveCounts(list)
    ensures DistinctFollows(Bumped(list, f)) && PositiveCounts(Bumped(list, f))
    ensures |Bumped(list, f)| == |list| + (if FindFollow(list, f).None? then 1 else 0)
  {
    var b := Bumped(list, f);
    match FindFollow(list, f)
    case Some(k) =>
      assert forall j :: 0 <= j < |b| ==> b[j].follow == list[j].follow && b[j].followCt >= list[j].followCt;
    case None =>
      assert forall j :: 0 <= j < |list| ==> b[j] == list[j];
      assert forall j :: 0 <= j < |list| ==> !b[j].Equals(b[|list|]);
  }

  /** The text of the entries, each as `Freq.toString` renders it, in list order. */
  function FreqsText(list: seq<Freq>): string {
    if |list| == 0 then "" else FreqsText(list[..|list| - 1]) + list[|list| - 1].ToString()
  }

  /** Rendering one more entry of a list appends that entry's text, whatever text came before. */
  lemma FreqsTextStep(head: string, list: seq<Freq>, i: nat)
    requires i < |list|
    ensures head + FreqsText(list[..i + 1]) == (head + FreqsText(list[..i])) + list[i].ToString()
  {
    assert list[..i + 1][..i] == list[..i];
    var done, t := FreqsText(list[..i]), list[i].ToString();
    assert FreqsText(list[..i + 1]) == done + t;
    assert head + (done + t) == (head + done) + t;
  }

  /** The head of `WordFreqInfo.toString`: the word between colons, then the occurrence count in parentheses. */
  function Header(word: string, occurCt: int): string {
    "Word :" + word + ":" + " (" + IntToString(occurCt) + ") : "
  }

  /** A word seen for the first time extends the rendered follow list by exactly "f [1] ". */
  lemma TextOfNewFollow(list: seq<Freq>, f: string)
    requires FindFollow(list, f).None?
    ensures FreqsText(Bumped(list, f)) == FreqsText(list) + f + " [1] "
  {
    var e := Freq(f, 1);
    assert Bumped(list, f) == list + [e];
    assert (list + [e])[..|list|] == list;
    NewFollowText(f);
  }

  /** A first-time follower renders as the word followed by " [1] ". */
  lemma NewFollowText(f: string)
    ensures Freq(f, 1).ToString() == f + " [1] "
  {
    assert NatToString(1) == [DigitChar(1)] == "1";
    assert Freq(f, 1).ToString() == f + " [" + "1" + "] ";
  }

  /** `WordFreqInfo`: a word, its occurrence count and its list of followers. */
  class WordFreqInfo {
    var word: string
    var occurCt: int
    var followList: seq<Freq>
    /** The count the record was created with. */
    ghost const initialCt: int

    /** Followers are distinct and counted, and every occurrence after creation recorded one follower. */
    ghost predicate Valid()
      reads this
    {
      DistinctFollows(followList) && PositiveCounts(followList) && occurCt - initialCt == Sum(followList)
    }

    /** `WordFreqInfo(word, count)`: no followers yet. */
    constructor(word: string, count: int)
      ensures this.word == word && occurCt == count && followList == [] && initialCt == count
      ensures Valid()
    {
      this.word := word;
      occurCt := count;
      followList := [];
      initialCt := count;
    }

    /**
     * `updateFollows(follow)`: one more occurrence, and one more time `follow` came next, found by a
     * linear search of the list.
     */
    method UpdateFollows(follow: string)
      modifies this
      ensures word == old(word) && occurCt == old(occurCt) + 1
      ensures followList == Bumped(old(followList), follow)
      ensures old(Valid()) ==> Valid()
    {
      BumpedSum(followList, follow);
      if Valid() {
        BumpedKeepsShape(followList, follow);
      }
      occurCt := occurCt + 1;
      var i := 0;
      while i < |followList|
        invariant i <= |followList| && followList == old(followList)
        invariant forall j :: 0 <= j < i ==> followList[j].follow != follow
      {
        if follow == followList[i].follow {
          followList := followList[i := followList[i].(followCt := followList[i].followCt + 1)];
          return;
        }
        i := i + 1;
      }
      followList := followList + [Freq(follow, 1)];
    }

    /** `toString`: the header, then every follower as `Freq.toString` renders it, in list order. */
    method ToString() returns (r: string)
      ensures r == Header(word, occurCt) + FreqsText(followList)
    {
      var sb := "Word :" + word + ":";
      sb := sb + " (" + IntToString(occurCt) + ") : ";
      ghost var head := sb;
      assert FreqsText(followList[..0]) == "";
      for i := 0 to |followList|
        invariant sb == head + FreqsText(followList[..i])
      {
        FreqsTextStep(head, followList, i);
        sb := sb + followList[i].ToString();
      }
      assert followList[..|followList|] == followList;
      r := sb;
    }
  }
}
