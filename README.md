# Quadratic-probing hash table and word-follow statistics, in Dafny

This project models the core of a small Java program that writes "poems" from a text. It has three
parts.

- **`HashTable<E, T>`** (src/HashTable.java). An open-addressing map from a *marker* (the key) to an
  *element* (the value).
  - It keeps one array of `HashEntry` slots. Each slot is null, a live entry, or a tombstone: an
    entry whose `isActive` flag was cleared by `remove`.
  - Its length is always an odd prime, chosen by `nextPrime`/`isPrime`.
  - `findPos` walks the quadratic probe `home + i*i` by adding the odd offsets 1, 3, 5, ….
  - `insert` rehashes into `nextPrime(2 * length)` slots once more than half of the slots have been
    written.
- **`WordFreqInfo`** (src/WordFreqInfo.java). The record kept for every word: how often it occurred
  with a successor, and for each successor (`Freq`) how often it came next.
- **`WritePoetry`** (src/WritePoetry.java). Two pieces only:
  - the weighted choice `pickNextWord`, with the random draw given as an integer;
  - the token loop of `buildHashTable`, run over a sequence of tokens.

Modules and files:

| file | module | contents |
|---|---|---|
| `wrappers.dfy` | `Wrappers` | `Option`, standing for Java's null results |
| `arith.dfy` | `Arith` | facts about Euclidean `/` and `%` |
| `primes.dfy` | `Primes` | `isPrime`, `nextPrime`, and the number theory behind them, including Euclid's lemma and the infinitude of primes |
| `decimal.dfy` | `Decimal` | Java's decimal rendering of an `int` |
| `probing.dfy` | `Probing` | `myhash` with Java's truncating `%`, and the probe sequence and its coverage theorem |
| `slots.dfy` | `Slots` | the slot datatype, where a probe stops, the live contents as a map, and what one write does to each of them |
| `hashtable.dfy` | `QuadraticProbing` | the `HashTable` class, with `array`, `occupiedCt` and `currentActiveEntries` as fields |
| `wordfreq.dfy` | `WordFreq` | the `Freq` datatype and the `WordFreqInfo` class |
| `poetry.dfy` | `Poetry` | `pickNextWord` and the `buildHashTable` token loop |

How the table is specified:

- `Contents()` gives the live (marker, element) pairs as a map.
- The private `isActive(pos)` is the predicate `Slots.IsLive`, applied to the slot at pos.
- `Valid()` is the class invariant. It says:
  - the length is an odd prime;
  - every entry sits where the probe for its marker stops;
  - the non-null slots ≤ `occupiedCt` ≤ half the length;
  - `currentActiveEntries` is the number of keys.
- The contracts of the operations that read or change the keys (`Insert`, `Remove`, `Rehash`,
  `Contains`, `Find`, `Size`, the constructors and the clearing methods) are stated against
  `Contents()` and `Valid()`. `FindPos` is stated against `Slots.Locate`, the slot where the probe for
  a marker stops. The two dumps, `ToString` and `ToStringAll`, are stated against
  `Slots.LiveIndices`. `MakeEmptyAsWritten` keeps only `Probeable()`: the invariant without the
  count of keys.

The key theorem is `Probing.ProbeEscapes`. In a table of odd prime length n, any n/2 positions miss
one of the first (n+1)/2 probes. So the probe loop of `findPos` stops within (n+1)/2 steps, and one
subtraction of n is enough to wrap each step.

`HashEntry` objects and `Freq` objects are never shared in the Java code. So a slot is modelled as
a datatype value in a Dafny `array`, and a follower list as a `seq<Freq>`.

- `remove` flips `isActive` in place. The model overwrites the slot with the same entry, flag
  cleared.
- `updateFollows` increments `followCt` inside its search loop. The model replaces that entry of
  the sequence.

Ingestion is tied to a function of its input:

- `Poetry.Ingest` gives, for a token sequence, the value of every `WordFreqInfo` after the loop.
- `Poetry.IngestAccounts` proves what those values count.
- `BuildHashTable` proves that the record objects in the table hold exactly those values.

Where the code and its comments disagree, the model follows the code:

- The doc comment of `findPos` says it never returns an inactive location. It can: it returns a
  tombstone holding the same marker, and `insert` then reuses that slot. This is why the comment
  on `insert` about lazily deleted locations does not match the code either.
- `makeEmpty` leaves the size counter alone. See Findings.

The doc comment of `nextPrime` promises only a prime at or above n, without saying which one. The
code returns the smallest **odd** prime at or above n, so `nextPrime(2)` is 3, and the model states
exactly that.

## Model

| member | source | states |
|---|---|---|
| `Primes.IsPrime` | src/HashTable.java:300-313 | for n ≥ 1 the answer is true exactly when n is prime; for n ≤ 0 it is true exactly when n is odd, because the loop never runs |
| `Primes.TrialDivisionSuffices` | src/HashTable.java:308-312 | once i*i > n and no odd number from 3 below i divides the odd n ≥ 5, n is prime |
| `Primes.CompositeHasSmallOddDivisor` | src/HashTable.java:308 | an odd composite n has an odd divisor d ≥ 3 with d*d ≤ n, so trial division up to the square root is enough |
| `Primes.NextPrime` | src/HashTable.java:283-292 | for n ≥ 0 the result is the smallest odd prime ≥ n, with no odd prime skipped; for n < 0 it is the first odd number from n |
| `Primes.PrimeAbove` | src/HashTable.java:288 | above every n lies an odd prime, so the search of `nextPrime` terminates |
| `Primes.NextPrimeUnique` | src/HashTable.java:277-282 | the smallest odd prime at or above n is unique |
| `Primes.NextPrimeExamples` | src/HashTable.java:285-286 | nextPrime(2) is 3 and nextPrime(10) is 11; the default hint 101 is prime, so nextPrime(101) is 101 |
| `Primes.ProductNotMultiple` | src/HashTable.java:112-127 | Euclid's lemma: a prime p divides no product of two numbers strictly between 0 and p |
| `Probing.MyHash` | src/HashTable.java:226-235 | the home position lies in [0, length) and is the mathematical remainder of the hash code |
| `Probing.JavaRemFolded` | src/HashTable.java:230-232 | Java's truncating `%`, plus the length when negative, equals the mathematical remainder |
| `Probing.ProbeStep` | src/HashTable.java:120-123 | adding offset 2i+1, then subtracting the length once if the sum reaches it, moves from probe i to probe i+1 |
| `Probing.ProbesDistinct` | src/HashTable.java:112-127 | for a prime length n, the first (n+1)/2 probes from any home position are pairwise distinct |
| `Probing.ProbeSetSize` | src/HashTable.java:112-127 | those first k ≤ (n+1)/2 probes cover exactly k positions |
| `Probing.ProbeEscapes` | src/HashTable.java:117-124 | with an odd prime length n and at most n/2 occupied positions, some probe i ≤ (n-1)/2 reaches a free position |
| `Slots.LocateStops` | src/HashTable.java:112-127 | in a searchable table, the probe for every marker stops within (length-1)/2 steps, at a null slot or a slot holding that marker |
| `Slots.LookupAtLocate` | src/HashTable.java:197-200 | the slot where the probe for y stops is live exactly when y is a key of the contents, and then it holds y's element |
| `Slots.PlaceAtLocate` | src/HashTable.java:47 | writing a live (x, y) where the probe for y stops keeps every entry findable, adds y ↦ x to the contents, and adds at most one non-null slot |
| `Slots.TombstoneAtLocate` | src/HashTable.java:139 | clearing the flag of y's live slot keeps every entry findable, keeps the non-null slots, and removes exactly y from the contents |
| `Slots.WriteKeepsWellformed` | src/HashTable.java:47 | a write of an entry for y where the probe for y stops leaves every entry where its own probe stops |
| `Slots.LocateAfterWrite` | src/HashTable.java:112-127 | that write does not move the stopping slot of any other marker whose probe ended on a non-null slot |
| `Slots.WellformedUnique` | src/HashTable.java:40-45 | no marker is live in two slots |
| `Slots.ActiveMapAfterInsert` | src/HashTable.java:47 | making a non-live slot live with a new marker adds that pair to the contents |
| `Slots.ActiveMapAfterRemove` | src/HashTable.java:139 | turning a live slot into a tombstone removes its marker from the contents |
| `Slots.ActiveMapStep` | src/HashTable.java:101-103 | scanning one more old slot: a live slot adds its pair to the contents of the prefix, and its marker was not there yet when markers are unique |
| `Slots.ActiveMapBound` | src/HashTable.java:265-266 | there are no more live pairs than non-null slots |
| `Slots.LiveIndices` | src/HashTable.java:65-66 | the live slots below i are listed in increasing order, and every one of them is listed |
| `QuadraticProbing.AllocateArray` | src/HashTable.java:272-275 | a fresh array of null slots whose length is nextPrime(arraySize) |
| `QuadraticProbing.HashTable.constructor` | src/HashTable.java:29-32 | an empty valid table of nextPrime(size) slots, with occupiedCt 0 |
| `QuadraticProbing.HashTable.Default` | src/HashTable.java:21-23 | the same for the default size hint of 101, which gives exactly 101 slots |
| `QuadraticProbing.HashTable.CountersBounded` | src/HashTable.java:264-266 | under the invariant: live entries ≤ non-null slots ≤ occupiedCt ≤ length/2 |
| `QuadraticProbing.HashTable.FindPos` | src/HashTable.java:112-127 | the result is the stopping slot of the probe for y; the loop keeps position = (home + i²) mod length and offset = 2i+1 |
| `QuadraticProbing.HashTable.Insert` | src/HashTable.java:40-55 | the result is true exactly when y was not live; the contents become old[y := x] or stay the same; size grows by one on success; a failed insert changes nothing; without a rehash exactly one slot is written and occupiedCt grows by one, even over a same-marker tombstone; otherwise the table is a fresh array of nextPrime(2·length) slots without tombstones |
| `QuadraticProbing.HashTable.Rehash` | src/HashTable.java:91-104 | the new length is nextPrime(2·old length); the contents are unchanged; tombstones are dropped; occupiedCt equals the live count; the termination measure it shares with `Insert` shows that the nested inserts never rehash again |
| `QuadraticProbing.HashTable.Reinsert` | src/HashTable.java:101-103 | one turn of the copy loop: a live entry whose marker is not yet present is added to the contents, with both counters going up by one; a null or deleted slot changes nothing; the table stays valid, free of tombstones, and is never replaced |
| `QuadraticProbing.HashTable.Remove` | src/HashTable.java:134-145 | the result is true exactly when y was live; the contents lose y; on success only y's slot changes, to the same entry marked inactive, and size drops by one; occupiedCt and the array are kept |
| `QuadraticProbing.HashTable.Size` | src/HashTable.java:151-154 | under the invariant, the number of keys |
| `QuadraticProbing.HashTable.Capacity` | src/HashTable.java:160-163 | the array length, which under the invariant is an odd prime |
| `QuadraticProbing.HashTable.Contains` | src/HashTable.java:170-174 | true exactly when y is a key |
| `QuadraticProbing.HashTable.Find` | src/HashTable.java:181-190 | y's element when y is a key, otherwise nothing (Java's null) |
| `QuadraticProbing.HashTable.MakeEmpty` | src/HashTable.java:205-208 | corrected: every slot null, no keys, occupiedCt and size zero, same array |
| `QuadraticProbing.HashTable.DoClear` | src/HashTable.java:213-218 | corrected: the same, with the size counter reset too |
| `QuadraticProbing.HashTable.MakeEmptyAsWritten` | src/HashTable.java:205-218 | as written: every slot null, no keys, occupiedCt zero, and the size counter left as it was |
| `QuadraticProbing.MakeEmptyMiscounts` | src/HashTable.java:213-218 | one insert into a new table followed by makeEmpty as written leaves no keys while size() reports 1 |
| `QuadraticProbing.HashTable.ToString` | src/HashTable.java:62-73 | the rows "i: element" of the first `limit` live slots, in increasing slot order |
| `QuadraticProbing.HashTable.ToStringAll` | src/HashTable.java:79-86 | the rows of all live slots, in increasing slot order |
| `QuadraticProbing.RowsStep` | src/HashTable.java:65-69 | scanning one more slot appends its row and counts it exactly when the slot is live |
| `QuadraticProbing.ScanStopsAtLimit` | src/HashTable.java:65 | when the scan stops, at the end of the array or with `limit` rows, its rows are the first `limit` live slots |
| `Decimal.NatToStringRoundTrip` | src/HashTable.java:67 | the decimal rendering consists of digits and reads back as the number |
| `Decimal.IntToString` | src/WordFreqInfo.java:38 | Java's rendering of an `int` in a string concatenation, as for `occurCt` here and the slot index at src/HashTable.java:67: a leading minus exactly for negative numbers, followed by digits that read back as the magnitude |
| `WordFreq.Freq.Equals` | src/WordFreqInfo.java:74-76 | two entries are equal exactly when they agree once the count is disregarded |
| `WordFreq.FreqEqualsEquivalence` | src/WordFreqInfo.java:74-76 | `Freq.equals` compares the follow words only; it is an equivalence that ignores counts |
| `WordFreq.FindFollow` | src/WordFreqInfo.java:52-57 | the index of the first entry for f, or none exactly when no entry has f |
| `WordFreq.BumpedSum` | src/WordFreqInfo.java:49-59 | one update adds exactly one to the total of the follow counts |
| `WordFreq.BumpedCount` | src/WordFreqInfo.java:52-58 | one update with f adds one to f's count and leaves every other word's count alone |
| `WordFreq.BumpedKeepsShape` | src/WordFreqInfo.java:52-58 | updates keep the follow words pairwise distinct and the counts positive; the list grows only for a new word |
| `WordFreq.TextOfNewFollow` | src/WordFreqInfo.java:58 | a first-time follower adds exactly "f [1] " to the rendered list |
| `WordFreq.Freq.ToString` | src/WordFreqInfo.java:70-72 | the text starts with the follow word, then " [", then the count's rendering (which reads back as the count), then "] " |
| `WordFreq.NewFollowText` | src/WordFreqInfo.java:70-72 | `Freq(f, 1)` renders as f followed by " [1] " |
| `WordFreq.FreqsTextStep` | src/WordFreqInfo.java:39-40 | rendering one more entry appends that entry's text |
| `WordFreq.CountOfPositive` | src/WordFreqInfo.java:58 | with positive counts, every word with an entry has a positive count |
| `WordFreq.WordFreqInfo.constructor` | src/WordFreqInfo.java:29-33 | word and occurCt from the arguments, no followers, invariant established |
| `WordFreq.WordFreqInfo.UpdateFollows` | src/WordFreqInfo.java:49-59 | occurCt grows by one; the list becomes its update with f; the word is kept; the invariant is preserved: distinct followers, positive counts, and occurCt minus its initial value equal to the total |
| `WordFreq.WordFreqInfo.ToString` | src/WordFreqInfo.java:35-43 | "Word :w: (n) : " followed by every entry as `Freq.toString` renders it, in list order |
| `Poetry.PickNextWord` | src/WritePoetry.java:76-89 | the loop's answer is the pick of the recursive definition, for the given draw |
| `Poetry.PickFirstCovering` | src/WritePoetry.java:80-86 | for 0 ≤ r < total, the pick is the word of the first entry k whose cumulative count exceeds r |
| `Poetry.PickInList` | src/WritePoetry.java:80-82 | a pick is always the follow word of some entry |
| `Poetry.PickNoneIff` | src/WritePoetry.java:87-88 | with positive counts, null is returned exactly when the draw reaches the total, so always for an empty list |
| `Poetry.PickFrequency` | src/WritePoetry.java:69-72 | of the draws 0 … total-1, exactly as many pick w as w's follow count |
| `Poetry.PickNeverNull` | src/WritePoetry.java:77-88 | for a record built by the token loop whose count is positive, every draw in [0, occurCt) picks a recorded follower |
| `Poetry.ZeroCountPicksNull` | src/WritePoetry.java:77-88 | a record built by the token loop has count zero exactly when its token occurs only as the last token; then the draw is 0 and `pickNextWord` returns null |
| `Poetry.OccurrencesPresent` | src/WritePoetry.java:134-145 | a token among those read occurs at least once |
| `Poetry.Ingest` | src/WritePoetry.java:128-146 | the records after n tokens are keyed by exactly the distinct tokens read |
| `Poetry.IngestAccounts` | src/WritePoetry.java:134-145 | the record of every token w seen names w, has distinct positive followers summing to occurCt, has occurCt equal to the occurrences of w that have a successor, and counts each v as the number of times v came right after w |
| `Poetry.IngestWord` | src/WritePoetry.java:130 | every record names the word it is filed under |
| `Poetry.IngestAt` | src/WritePoetry.java:136-145 | after one more token, only the previous token's record is told, and the new token gets a fresh record only if it had none |
| `Poetry.TallyStep` | src/WritePoetry.java:136 | telling a record its next follower accounts for one more token |
| `Poetry.TallyOther` | src/WritePoetry.java:136 | the records of other words account for that token unchanged |
| `Poetry.TallyFresh` | src/WritePoetry.java:140-144 | a new record with count zero accounts for a token seen for the first time |
| `Poetry.FirstOccurrencesListSeen` | src/WritePoetry.java:142-145 | the inserted keys list every distinct token exactly once |
| `Poetry.TellFollower` | src/WritePoetry.java:136 | `find(key).updateFollows(follower)` changes only key's record, to its told value |
| `Poetry.FileFirst` | src/WritePoetry.java:122-132 | a valid default-sized table holding one fresh record for the first token, with count zero and no followers |
| `Poetry.FileNext` | src/WritePoetry.java:134-146 | one turn of the loop takes the table from the records of n tokens to those of n+1 |
| `Poetry.FileIfAbsent` | src/WritePoetry.java:139-145 | the follower is inserted exactly when it has no record yet |
| `Poetry.FileNew` | src/WritePoetry.java:140-144 | a fresh record with count zero is filed under the new token |
| `Poetry.InsertAbsent` | src/WritePoetry.java:144 | inserting a new key adds it to the contents and changes no record object |
| `Poetry.BuildHashTable` | src/WritePoetry.java:120-148 | the result is a valid table keyed by the distinct tokens, whose fresh record objects hold the values `Ingest` gives; the keys were inserted in order of first occurrence |

## Left out

- Reading the text is not modelled: `Scanner`, `File`, `printStackTrace` and `System.exit`. `BuildHashTable` takes the tokens as a sequence.
- `toLowerCase` on each token is not modelled. Tokens are taken as already normalised, since Unicode case mapping is outside Dafny's strings.
- `Math.random()` and the scaling `(int)(Math.random() * occurCt)` are not modelled. `PickNextWord` takes the integer draw. The draw `(int)(Math.random() * occurCt)` lies in [0, occurCt) when occurCt is positive and is 0 when occurCt is 0.
- `Poetry.PickNeverNull`: covers only records whose count is positive; it requires the draw to lie in [0, occurCt). For a record whose count is zero, the "shouldn't get here" `return null` at src/WritePoetry.java:87-88 is reached, as `Poetry.ZeroCountPicksNull` proves. That is the record of a token occurring only as the last token. `WritePoem` would then look up null, and `myhash` would dereference it. That driver code is not part of this model.
- `pickNextWord2` is a line-for-line copy of `pickNextWord`. It is modelled by the same member, `Poetry.PickNextWord`.
- `hashCode()` of markers is a parameter of the table, a function T → int. `equals` on markers is Dafny's `==`.
- The elements' `toString` inside the table dump is a parameter `show`.
- Java `int` overflow is not modelled; integers are unbounded. This covers the hash code, `i * i` in `isPrime`, `2 * oldArray.length` in `rehash`, and the counters.
- `QuadraticProbing.HashTable.constructor`: requires a size hint ≥ 0. For a negative hint `nextPrime` returns a negative number (`Primes.NextPrime` states this) and Java's array allocation then throws. That exception path is not modelled.
- `QuadraticProbing.HashTable.Insert` and `Remove` require the class invariant `Valid()`. `Contains` and `Find` require the weaker `Probeable()`, and `FindPos` only `Searchable(table[..])`: an odd prime length and at most half the slots non-null. `Rehash` requires only that no marker is live twice. The constructors establish these invariants. Every public operation except the as-written `makeEmpty` keeps them. That one keeps only `Probeable()` and leaves `currentActiveEntries` stale (see Findings), so the contracts of `Insert`, `Remove` and `Size` do not apply after it. No call site in the source calls `makeEmpty`. The private `findPos` and `rehash` are only called from operations that hold them.
- `HashEntry`'s two-argument constructor is not modelled; the code never calls it. The slot datatype carries the flag explicitly.
- In `buildHashTable`, a `WordFreqInfo` for the follower is allocated on every turn but inserted only when the follower is new. The model allocates it only when it is inserted. The unused object is never observable.
- `main`, `WritePoem`, `WritePoem2`, `buildHashTable2` and console output are not modelled. They are driver code over I/O and random picks, and `buildHashTable2` files bigram keys that `WritePoem2` then looks up by single words.

## Findings

| source | as written | input that shows it | evidently intended | confidence | as-written member | corrected member |
|---|---|---|---|---|---|---|
| src/HashTable.java:213-218 | `doClear` (and so `makeEmpty`) nulls every slot and resets `occupiedCt`, but leaves `currentActiveEntries` unchanged | a new table, `insert("x", 7)`, then `makeEmpty()`: the table has no keys but `size()` returns 1 | clearing also sets `currentActiveEntries` to 0, so `size()` is 0 after `makeEmpty` | high; not executed | `QuadraticProbing.HashTable.MakeEmptyAsWritten`, `QuadraticProbing.MakeEmptyMiscounts` | `QuadraticProbing.HashTable.DoClear` |
