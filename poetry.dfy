/**
 * The non-I/O logic of WritePoetry.java: the weighted choice of the next word from a follower list
 * and a given draw, and the loop that files every token of a text in the hash table with its
 * follower counts.
 */
module Poetry {
  import opened Wrappers
  import opened WordFreq
  import opened QuadraticProbing

  /**
   * The word `pickNextWord` returns for draw r: walking the list, the first entry whose count exceeds
   * what is left of the draw, after subtracting the counts passed over. None stands for Java's null.
   */
  function Pick(list: seq<Freq>, r: int): Option<string> {
    if |list| == 0 then None
    else if r < list[0].followCt then Some(list[0].follow)
    else Pick(list[1..], r - list[0].followCt)
  }

  /** `pickNextWord` (and its copy `pickNextWord2`) with the random draw `randomPick` given. */
  method PickNextWord(lastWord: WordFreqInfo, randomPick: int) returns (r: Option<string>)
    ensures r == Pick(lastWord.followList, randomPick)
  {
    var list := lastWord.followList;
    var pick := randomPick;
    for k := 0 to |list|
      invariant Pick(list[k..], pick) == Pick(list, randomPick)
    {
      assert list[k..][1..] == list[k + 1..];
      if pick < list[k].followCt {
        return Some(list[k].follow);
      }
      pick := pick - list[k].followCt;
    }
    return None;
  }

  /** The counts of the first entries of the list after its head are the head's count less. */
  lemma PrefixSumTail(list: seq<Freq>, n: nat)
    requires 1 <= n <= |list|
    ensures Sum(list[..n]) == list[0].followCt + Sum(list[1..][..n - 1])
  {
    assert list[..n][1..] == list[1..][..n - 1];
  }

  /**
   * For a draw below the total, the pick is the follow word of the first entry k whose cumulative
   * count followCt[0] + ... + followCt[k] exceeds the draw.
   */
  lemma {:induction false} PickFirstCovering(list: seq<Freq>, r: int) returns (k: nat)
    requires 0 <= r < Sum(list)
    ensures k < |list| && r < Sum(list[..k + 1])
    ensures forall j :: 1 <= j <= k ==> Sum(list[..j]) <= r
    ensures Pick(list, r) == Some(list[k].follow)
  {
    assert |list| > 0;
    PrefixSumTail(list, 1);
    assert list[1..][..0] == [];
    if r < list[0].followCt {
      k := 0;
    } else {
      var k' := PickFirstCovering(list[1..], r - list[0].followCt);
      k := k' + 1;
      PrefixSumTail(list, k + 1);
      forall j | 1 <= j <= k
        ensures Sum(list[..j]) <= r
      {
        PrefixSumTail(list, j);
        if j == 1 {
          assert list[1..][..0] == [];
        }
      }
    }
  }

  /** A pick is always the follow word of some entry. */
  lemma {:induction false} PickInList(list: seq<Freq>, r: int) returns (k: nat)
    requires Pick(list, r).Some?
    ensures k < |list| && list[k].follow == Pick(list, r).value
  {
    if r < list[0].followCt {
      k := 0;
    } else {
      var k' := PickInList(list[1..], r - list[0].followCt);
      k := k' + 1;
    }
  }

  /** A sum of positive counts is never negative. */
  lemma {:induction false} SumNonNegative(list: seq<Freq>)
    requires PositiveCounts(list)
    ensures Sum(list) >= 0
  {
    if |list| > 0 {
      SumNonNegative(list[1..]);
    }
  }

  /** With positive counts, the pick is null exactly when the draw reaches the total (so always for an empty list). */
  lemma {:induction false} PickNoneIff(list: seq<Freq>, r: int)
    requires PositiveCounts(list) && r >= 0
    ensures Pick(list, r).None? <==> r >= Sum(list)
  {
    if |list| > 0 {
      SumNonNegative(list[1..]);
      if r >= list[0].followCt {
        PickNoneIff(list[1..], r - list[0].followCt);
      }
    }
  }

  /** The number of draws in [lo, hi) that pick the word w. */
  function Hits(list: seq<Freq>, w: string, lo: int, hi: int): nat
    decreases hi - lo
  {
    if hi <= lo then 0 else Hits(list, w, lo, hi - 1) + (if Pick(list, hi - 1) == Some(w) then 1 else 0)
  }

  /** Counting hits over [lo, hi) is counting over [lo, mid) and then over [mid, hi). */
  lemma {:induction false} HitsSplit(list: seq<Freq>, w: string, lo: int, mid: int, hi: int)
    requires lo <= mid <= hi
    ensures Hits(list, w, lo, hi) == Hits(list, w, lo, mid) + Hits(list, w, mid, hi)
    decreases hi - mid
  {
    if mid < hi {
      HitsSplit(list, w, lo, mid, hi - 1);
    }
  }

  /** Every draw below the head's count picks the head's word. */
  lemma {:induction false} HitsHead(list: seq<Freq>, w: string, lo: int, hi: int)
    requires |list| > 0 && lo <= hi <= list[0].followCt
    ensures Hits(list, w, lo, hi) == if list[0].follow == w then hi - lo else 0
    decreases hi - lo
  {
    if lo < hi {
      HitsHead(list, w, lo, hi - 1);
    }
  }

  /** Draws at or above the head's count pick what the shifted draw picks in the rest of the list. */
  lemma {:induction false} HitsTail(list: seq<Freq>, w: string, lo: int, hi: int)
    requires |list| > 0 && list[0].followCt <= lo
    ensures Hits(list, w, lo, hi) == Hits(list[1..], w, lo - list[0].followCt, hi - list[0].followCt)
    decreases hi - lo
  {
    if lo < hi {
      HitsTail(list, w, lo, hi - 1);
    }
  }

  /**
   * The weighting the comment of `pickNextWord` promises: of the draws 0 .. total-1, exactly as many
   * pick w as w's recorded follow count.
   */
  lemma {:induction false} PickFrequency(list: seq<Freq>, w: string)
    requires PositiveCounts(list)
    ensures Hits(list, w, 0, Sum(list)) == CountOf(list, w)
  {
    if |list| > 0 {
      var c := list[0].followCt;
      var rest := list[1..];
      SumNonNegative(rest);
      HitsSplit(list, w, 0, c, Sum(list));
      HitsHead(list, w, 0, c);
      HitsTail(list, w, c, Sum(list));
      PickFrequency(rest, w);
    }
  }

  /** The number of positions below n holding w. */
  function Occurrences(ts: seq<string>, n: nat, w: string): nat
    requires n <= |ts|
  {
    if n == 0 then 0 else Occurrences(ts, n - 1, w) + (if ts[n - 1] == w then 1 else 0)
  }

  /** The number of positions j with j + 1 < n where w is followed by v. */
  function PairCount(ts: seq<string>, n: nat, w: string, v: string): nat
    requires n <= |ts|
  {
    if n < 2 then 0 else PairCount(ts, n - 1, w, v) + (if ts[n - 2] == w && ts[n - 1] == v then 1 else 0)
  }

  /** The distinct tokens among the first n. */
  function Seen(ts: seq<string>, n: nat): (r: set<string>)
    requires n <= |ts|
    ensures forall j :: 0 <= j < n ==> ts[j] in r
  {
    if n == 0 then {} else Seen(ts, n - 1) + {ts[n - 1]}
  }

  /** A token not among the first n has no occurrences there. */
  lemma {:induction false} OccurrencesAbsent(ts: seq<string>, n: nat, w: string)
    requires n <= |ts| && w !in Seen(ts, n)
    ensures Occurrences(ts, n, w) == 0
  {
    if n > 0 {
      OccurrencesAbsent(ts, n - 1, w);
    }
  }

  /** A token first seen at position n - 1 is followed by nothing among the first n. */
  lemma {:induction false} PairCountAbsent(ts: seq<string>, n: nat, w: string)
    requires 0 < n <= |ts| && w !in Seen(ts, n - 1)
    ensures forall v :: PairCount(ts, n, w, v) == 0
  {
    if n >= 2 {
      PairCountAbsent(ts, n - 1, w);
    }
  }

  /** A `WordFreqInfo` record as a value: its word, occurrence count and follower list. */
  datatype Tally = Tally(word: string, occurCt: int, followList: seq<Freq>)

  /** The value of a record after `updateFollows(f)`. */
  function Told(t: Tally, f: string): Tally {
    Tally(t.word, t.occurCt + 1, Bumped(t.followList, f))
  }

  /**
   * One turn of the token loop on the records by word: the record of `key` is told that `follower`
   * came next, and `follower` gets a new record with count zero unless it already has one.
   */
  function Turn(m: map<string, Tally>, key: string, follower: string): (r: map<string, Tally>)
    requires key in m
    ensures r.Keys == m.Keys + {follower}
  {
    var told := m[key := Told(m[key], follower)];
    if follower in told then told else told[follower := Tally(follower, 0, [])]
  }

  /** The records, by word, that the token loop of `buildHashTable` has made after the first n tokens. */
  function Ingest(ts: seq<string>, n: nat): (m: map<string, Tally>)
    requires 0 < n <= |ts|
    ensures m.Keys == Seen(ts, n)
  {
    if n == 1 then map[ts[0] := Tally(ts[0], 0, [])]
    else Turn(Ingest(ts, n - 1), ts[n - 2], ts[n - 1])
  }

  /**
   * What the record t of word w says after the first n tokens: it names w, its followers are distinct
   * and positive and add up to its count, the count is the number of occurrences of w before position
   * n - 1 (those that have a follower), and for every v the count of v is the number of times v came
   * right after w.
   */
  ghost predicate Accounts(t: Tally, w: string, ts: seq<string>, n: nat)
    requires 0 < n <= |ts|
  {
    && t.word == w
    && DistinctFollows(t.followList) && PositiveCounts(t.followList) && t.occurCt == Sum(t.followList)
    && t.occurCt == Occurrences(ts, n - 1, w)
    && forall v {:trigger CountOf(t.followList, v)} :: CountOf(t.followList, v) == PairCount(ts, n, w, v)
  }

  /** Told about the token at position n - 1, the record of the one before it accounts for the first n tokens. */
  lemma TallyStep(t: Tally, ts: seq<string>, n: nat)
    requires 1 < n <= |ts| && Accounts(t, ts[n - 2], ts, n - 1)
    ensures Accounts(Told(t, ts[n - 1]), ts[n - 2], ts, n)
  {
    var w, f := ts[n - 2], ts[n - 1];
    forall v
      ensures CountOf(Bumped(t.followList, f), v) == PairCount(ts, n, w, v)
    {
      BumpedCount(t.followList, f, v);
    }
    BumpedKeepsShape(t.followList, f);
    BumpedSum(t.followList, f);
  }

  /** The record of any other word accounts for the token at position n - 1 unchanged. */
  lemma TallyOther(t: Tally, w: string, ts: seq<string>, n: nat)
    requires 1 < n <= |ts| && w != ts[n - 2] && Accounts(t, w, ts, n - 1)
    ensures Accounts(t, w, ts, n)
  {
  }

  /** A new record for the token at position n - 1, seen there for the first time, accounts for the first n tokens. */
  lemma TallyFresh(ts: seq<string>, n: nat)
    requires 0 < n <= |ts| && ts[n - 1] !in Seen(ts, n - 1)
    ensures Accounts(Tally(ts[n - 1], 0, []), ts[n - 1], ts, n)
  {
    OccurrencesAbsent(ts, n - 1, ts[n - 1]);
    PairCountAbsent(ts, n, ts[n - 1]);
  }

  /** Every record names the word it is filed under. */
  lemma {:induction false} IngestWord(ts: seq<string>, n: nat, w: string)
    requires 0 < n <= |ts| && w in Ingest(ts, n)
    ensures Ingest(ts, n)[w].word == w
  {
    if n > 1 {
      var m := Ingest(ts, n - 1);
      if w in m {
        IngestWord(ts, n - 1, w);
      }
    }
  }

  /**
   * What `buildHashTable` promises of the table it builds: after the first n tokens, the record of
   * every token seen counts its occurrences that have a follower, and for every other token v the
   * times v came right after it, with its followers distinct and positive.
   */
  lemma {:induction false} IngestAccounts(ts: seq<string>, n: nat, w: string)
    requires 0 < n <= |ts| && w in Ingest(ts, n)
    ensures Accounts(Ingest(ts, n)[w], w, ts, n)
  {
    if n == 1 {
      assert Seen(ts, 0) == {};
      TallyFresh(ts, 1);
    } else {
      var m, key := Ingest(ts, n - 1), ts[n - 2];
      IngestAt(ts, n, w);
      if w == key {
        IngestAccounts(ts, n - 1, key);
        TallyStep(m[key], ts, n);
      } else if w in m {
        IngestAccounts(ts, n - 1, w);
        TallyOther(m[w], w, ts, n);
      } else {
        TallyFresh(ts, n);
      }
    }
  }

  /**
   * The "shouldn't get here" of `pickNextWord`, for a record with a positive count: every draw in
   * [0, occurCt) picks a word, which is one of the recorded followers. A record whose count is zero
   * is covered by `ZeroCountPicksNull`: there the line is reached.
   */
  lemma PickNeverNull(t: Tally, w: string, ts: seq<string>, n: nat, r: int)
    requires 0 < n <= |ts| && Accounts(t, w, ts, n) && 0 <= r < t.occurCt
    ensures Pick(t.followList, r).Some? && CountOf(t.followList, Pick(t.followList, r).value) > 0
  {
    PickNoneIff(t.followList, r);
    var k := PickInList(t.followList, r);
    CountOfPositive(t.followList, k);
  }

  /**
   * The "shouldn't get here" of `pickNextWord` is reachable. A record has count zero exactly when
   * its token occurs only as the last of the tokens read (as "mat" in "the cat sat on the mat").
   * For such a record the draw `(int)(Math.random() * 0)` is 0, and the scan picks nothing.
   */
  lemma ZeroCountPicksNull(ts: seq<string>, n: nat, w: string)
    requires 0 < n <= |ts| && w in Ingest(ts, n)
    ensures Ingest(ts, n)[w].occurCt == 0 <==> w !in Seen(ts, n - 1)
    ensures Ingest(ts, n)[w].occurCt == 0 ==> w == ts[n - 1] && Pick(Ingest(ts, n)[w].followList, 0).None?
  {
    var t := Ingest(ts, n)[w];
    IngestAccounts(ts, n, w);
    if w in Seen(ts, n - 1) {
      OccurrencesPresent(ts, n - 1, w);
    } else {
      OccurrencesAbsent(ts, n - 1, w);
      PickNoneIff(t.followList, 0);
    }
  }

  /** A token among the first n occurs there at least once. */
  lemma {:induction false} OccurrencesPresent(ts: seq<string>, n: nat, w: string)
    requires n <= |ts| && w in Seen(ts, n)
    ensures Occurrences(ts, n, w) > 0
  {
    if ts[n - 1] != w {
      OccurrencesPresent(ts, n - 1, w);
    }
  }

  /** The record of w after n tokens, from the records after n - 1. */
  lemma IngestAt(ts: seq<string>, n: nat, w: string)
    requires 1 < n <= |ts| && w in Ingest(ts, n)
    ensures var m := Ingest(ts, n - 1);
            Ingest(ts, n)[w]
            == if w == ts[n - 2] then Told(m[w], ts[n - 1])
               else if w in m then m[w]
               else Tally(w, 0, [])
    ensures w !in Ingest(ts, n - 1) ==> w == ts[n - 1] && w !in Seen(ts, n - 1)
  {
  }

  /** The distinct tokens among the first n, each where it first occurs: the order of the `insert` calls. */
  function FirstOccurrences(ts: seq<string>, n: nat): seq<string>
    requires n <= |ts|
  {
    if n == 0 then []
    else if ts[n - 1] in Seen(ts, n - 1) then FirstOccurrences(ts, n - 1)
    else FirstOccurrences(ts, n - 1) + [ts[n - 1]]
  }

  /** f lists the members of s, each exactly once. */
  ghost predicate ListsOnce(f: seq<string>, s: set<string>) {
    && (forall w :: w in f <==> w in s)
    && (forall a, b :: 0 <= a < b < |f| ==> f[a] != f[b])
    && |f| == |s|
  }

  /**
   * Each distinct token is inserted exactly once: the first occurrences list the distinct tokens,
   * each exactly once.
   */
  lemma {:induction false} FirstOccurrencesListSeen(ts: seq<string>, n: nat)
    requires n <= |ts|
    ensures ListsOnce(FirstOccurrences(ts, n), Seen(ts, n))
  {
    if n > 0 {
      var m := n - 1;
      FirstOccurrencesListSeen(ts, m);
      SeenStep(ts, m);
      ListsOnceStep(FirstOccurrences(ts, m), Seen(ts, m), ts[m], FirstOccurrences(ts, m + 1), Seen(ts, m + 1));
    } else {
      assert Seen(ts, 0) == {};
    }
  }

  /**
   * Reading one more word keeps a listing: a word already in the set leaves both unchanged, a new one
   * is appended to the listing and added to the set.
   */
  lemma ListsOnceStep(f: seq<string>, s: set<string>, t: string, g: seq<string>, s': set<string>)
    requires ListsOnce(f, s)
    requires g == (if t in s then f else f + [t]) && s' == s + {t}
    ensures ListsOnce(g, s')
  {
    if t in s {
      assert s' == s;
    } else {
      assert forall a :: 0 <= a < |f| ==> g[a] == f[a];
      assert forall w :: w in g <==> w in f || w == t;
    }
  }

  /** The value a record object holds. */
  ghost function Snapshot(rec: WordFreqInfo): Tally
    reads rec
  {
    Tally(rec.word, rec.occurCt, rec.followList)
  }

  /** The record objects filed under the keys hold exactly the values `ref` gives for those keys. */
  ghost predicate Mirrors(files: map<string, WordFreqInfo>, ref: map<string, Tally>)
    reads files.Values
  {
    files.Keys == ref.Keys && forall w :: w in files ==> Snapshot(files[w]) == ref[w]
  }

  /**
   * `info.find(key).updateFollows(follower)`: the record of the token at position n - 1 is told that
   * the token at position n follows it, and no other record changes.
   */
  method TellFollower(rec: WordFreqInfo, follower: string, ghost files: map<string, WordFreqInfo>, ghost ts: seq<string>, ghost n: nat)
    requires 0 < n < |ts| && follower == ts[n] && ts[n - 1] in files && rec == files[ts[n - 1]]
    requires Mirrors(files, Ingest(ts, n))
    modifies rec
    ensures Mirrors(files, Ingest(ts, n)[ts[n - 1] := Told(Ingest(ts, n)[ts[n - 1]], follower)])
  {
    ghost var key, m := ts[n - 1], Ingest(ts, n);
    forall w | w in files
      ensures files[w].word == w
    {
      IngestWord(ts, n, w);
    }
    rec.UpdateFollows(follower);
    assert forall w :: w in files && w != key ==> files[w] != rec;
  }

  /**
   * The start of `buildHashTable`: a table of the default size holding a new record for the first
   * token, created with count zero.
   */
  method FileFirst(key: string, hashCode: string -> int) returns (info: HashTable<WordFreqInfo, string>)
    ensures fresh(info) && fresh(info.table) && info.Valid()
    ensures info.Contents().Keys == {key} && fresh(info.Contents()[key])
    ensures Snapshot(info.Contents()[key]) == Tally(key, 0, [])
  {
    info := new HashTable<WordFreqInfo, string>.Default(hashCode);
    var currentWord := new WordFreqInfo(key, 0);
    var _ := info.Insert(currentWord, key);
    assert info.Contents() == map[key := currentWord];
  }

  /**
   * What the token loop of `buildHashTable` keeps after reading the first n tokens: a valid table whose
   * records hold the values `Ingest` gives, and `keys` listing the first occurrences of the tokens read.
   */
  ghost predicate Filed(info: HashTable<WordFreqInfo, string>, files: map<string, WordFreqInfo>, tokens: seq<string>, n: nat, keys: seq<string>)
    requires 0 < n <= |tokens|
    reads info, info.table, files.Values
  {
    && info.Valid() && info.Contents() == files
    && Mirrors(files, Ingest(tokens, n)) && keys == FirstOccurrences(tokens, n)
  }

  /**
   * One turn of the token loop of `buildHashTable`: the record of `key`, the token at position n - 1,
   * is found and told that `follower` came next, and `follower` gets a new record unless it already has
   * one. `files` is the table's contents and `keys` the keys in insertion order, before and after.
   */
  method FileNext(info: HashTable<WordFreqInfo, string>, key: string, follower: string,
                  ghost files: map<string, WordFreqInfo>, ghost tokens: seq<string>, ghost n: nat, ghost keys: seq<string>)
    returns (ghost newFiles: map<string, WordFreqInfo>, ghost newKeys: seq<string>)
    requires 0 < n < |tokens| && key == tokens[n - 1] && follower == tokens[n]
    requires Filed(info, files, tokens, n, keys)
    modifies info, info.table, files[key]
    ensures Filed(info, newFiles, tokens, n + 1, newKeys)
    ensures info.table == old(info.table) || fresh(info.table)
    ensures forall w :: w in newFiles ==> (w in files && newFiles[w] == files[w]) || fresh(newFiles[w])
  {
    var found := info.Find(key);
    TellFollower(found.value, follower, files, tokens, n);
    newFiles, newKeys := FileIfAbsent(info, follower, files, tokens, n, keys);
  }

  /** `info.insert(x, y)` for a key y not in the table, with only what the token loop needs to know. */
  method InsertAbsent(info: HashTable<WordFreqInfo, string>, x: WordFreqInfo, y: string,
                      ghost files: map<string, WordFreqInfo>, ghost ref: map<string, Tally>)
    requires info.Valid() && y !in info.Contents() && Mirrors(files, ref)
    modifies info, info.table
    ensures info.Valid() && info.Contents() == old(info.Contents())[y := x]
    ensures info.table == old(info.table) || fresh(info.table)
    ensures Mirrors(files, ref)
  {
    var _ := info.Insert(x, y);
  }

  /**
   * The second half of a turn of the token loop: `follower`, the token at position n, gets a new
   * record, created with count zero, unless the table already holds one for it.
   */
  method FileIfAbsent(info: HashTable<WordFreqInfo, string>, follower: string,
                      ghost files: map<string, WordFreqInfo>, ghost tokens: seq<string>, ghost n: nat, ghost keys: seq<string>)
    returns (ghost newFiles: map<string, WordFreqInfo>, ghost newKeys: seq<string>)
    requires 0 < n < |tokens| && follower == tokens[n]
    requires info.Valid() && info.Contents() == files && keys == FirstOccurrences(tokens, n)
    requires Mirrors(files, Ingest(tokens, n)[tokens[n - 1] := Told(Ingest(tokens, n)[tokens[n - 1]], follower)])
    modifies info, info.table
    ensures Filed(info, newFiles, tokens, n + 1, newKeys)
    ensures info.table == old(info.table) || fresh(info.table)
    ensures forall w :: w in newFiles ==> (w in files && newFiles[w] == files[w]) || fresh(newFiles[w])
  {
    SeenStep(tokens, n);
    var present := info.Contains(follower);
    if !present {
      newFiles, newKeys := FileNew(info, follower, files, tokens, n, keys);
    } else {
      newFiles, newKeys := files, keys;
    }
  }

  /**
   * `info.insert(shiftWord, key)` for a token that has no record yet: a new record for it, created
   * with count zero, is filed under it.
   */
  method FileNew(info: HashTable<WordFreqInfo, string>, follower: string,
                 ghost files: map<string, WordFreqInfo>, ghost tokens: seq<string>, ghost n: nat, ghost keys: seq<string>)
    returns (ghost newFiles: map<string, WordFreqInfo>, ghost newKeys: seq<string>)
    requires 0 < n < |tokens| && follower == tokens[n] && follower !in files
    requires info.Valid() && info.Contents() == files && keys == FirstOccurrences(tokens, n)
    requires Mirrors(files, Ingest(tokens, n)[tokens[n - 1] := Told(Ingest(tokens, n)[tokens[n - 1]], follower)])
    modifies info, info.table
    ensures Filed(info, newFiles, tokens, n + 1, newKeys)
    ensures info.table == old(info.table) || fresh(info.table)
    ensures forall w :: w in newFiles ==> (w in files && newFiles[w] == files[w]) || fresh(newFiles[w])
  {
    ghost var m := Ingest(tokens, n);
    ghost var told := m[tokens[n - 1] := Told(m[tokens[n - 1]], follower)];
    var shiftWord := new WordFreqInfo(follower, 0);
    SeenStep(tokens, n);
    newFiles, newKeys := files[follower := shiftWord], keys + [follower];
    assert Ingest(tokens, n + 1) == told[follower := Tally(follower, 0, [])];
    InsertAbsent(info, shiftWord, follower, newFiles, Ingest(tokens, n + 1));
  }

  /** Reading the token at position n adds it to the tokens seen and, if it is new, to the first occurrences. */
  lemma SeenStep(ts: seq<string>, n: nat)
    requires n < |ts|
    ensures Seen(ts, n + 1) == Seen(ts, n) + {ts[n]}
    ensures FirstOccurrences(ts, n + 1)
            == if ts[n] in Seen(ts, n) then FirstOccurrences(ts, n) else FirstOccurrences(ts, n) + [ts[n]]
  {
  }

  /**
   * The token loop of `buildHashTable`, over a sequence of tokens instead of a file. The first token
   * gets a record; then for each further token, the record of the previous one is found and told
   * about its follower, and the token gets a record unless it already has one. The records end up
   * holding the values `Ingest` gives (see IngestAccounts for what those count), and `insertedKeys`
   * lists the keys in the order `insert` was called with them.
   */
  method BuildHashTable(tokens: seq<string>, hashCode: string -> int)
    returns (info: HashTable<WordFreqInfo, string>, ghost insertedKeys: seq<string>)
    ensures fresh(info) && info.Valid()
    ensures info.Contents().Keys == Seen(tokens, |tokens|)
    ensures forall w :: w in info.Contents() ==> fresh(info.Contents()[w])
    ensures |tokens| > 0 ==> Mirrors(info.Contents(), Ingest(tokens, |tokens|))
    ensures insertedKeys == FirstOccurrences(tokens, |tokens|)
  {
    if |tokens| == 0 {
      info := new HashTable<WordFreqInfo, string>.Default(hashCode);
      return info, [];
    }
    var key := tokens[0];
    info := FileFirst(key, hashCode);
    insertedKeys := [key];
    ghost var files := info.Contents();
    assert Seen(tokens, 0) == {};
    var n := 1;
    while n < |tokens|
      invariant 0 < n <= |tokens| && key == tokens[n - 1]
      invariant fresh(info) && fresh(info.table) && forall w :: w in files ==> fresh(files[w])
      invariant Filed(info, files, tokens, n, insertedKeys)
    {
      var follower := tokens[n];
      files, insertedKeys := FileNext(info, key, follower, files, tokens, n, insertedKeys);
      n := n + 1;
      key := follower;
    }
  }
}
