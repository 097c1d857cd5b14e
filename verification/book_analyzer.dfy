/**
 Letter-frequency analysis of a Russian text.  Characters are Unicode code
 points (integers); a text is a sequence of them.  The parallel counting
 loop is modelled by an arbitrary assignment of positions to threads
 (`owner[i]` is the thread that handles position i), each thread counting
 into its own 33-bucket slice of one flat array, followed by the bucket
 merge, the positive-count filter and the sort by frequency.
 */
module BookAnalyzer {

  /* ---------------------------------------------------------------------
     Code points of the letters the analyzer knows
     --------------------------------------------------------------------- */

  const CapitalA := 0x0410      // А
  const CapitalYa := 0x042F     // Я
  const SmallA := 0x0430        // а
  const SmallIe := 0x0435       // е
  const SmallZhe := 0x0436      // ж
  const SmallYu := 0x044E       // ю
  const SmallYa := 0x044F       // я
  const CapitalYo := 0x0401     // Ё
  const SmallYo := 0x0451       // ё
  const CapitalUkrIe := 0x0404  // Є
  const SmallUkrIe := 0x0454    // є
  const CapitalUkrI := 0x0406   // І
  const SmallUkrI := 0x0456     // і
  const CapitalYi := 0x0407     // Ї
  const SmallYi := 0x0457       // ї

  /** Number of buckets: а..я plus ё. */
  const AlphabetSize := 33
  const YoBucket := 32

  /** Russian letters in both cases, ё/Ё, and the Ukrainian ї, є, і in both
      cases. */
  predicate IsRussianLetter(c: int)
  {
    || (SmallA <= c <= SmallYa)
    || (CapitalA <= c <= CapitalYa)
    || c == SmallYo || c == CapitalYo
    || c == SmallYi || c == CapitalYi
    || c == SmallUkrIe || c == CapitalUkrIe
    || c == SmallUkrI || c == CapitalUkrI
  }

  /** The lower-case letters among those. */
  predicate IsLowerRussian(c: int)
  {
    (SmallA <= c <= SmallYa) || c == SmallYo || c == SmallYi || c == SmallUkrIe || c == SmallUkrI
  }

  /** The fallback for everything else: tolower of the "C" locale, which
      only maps the ASCII capitals. */
  function CLocaleToLower(c: int): int
  {
    if 'A' as int <= c <= 'Z' as int then c + 32 else c
  }

  /** Lower-casing: А..Я by a fixed offset, Ё/Ї/Є/І by name, anything else
      through the fallback. */
  function ToLowerRussian(c: int): (r: int)
    ensures CapitalA <= c <= CapitalYa ==> r == c + (SmallA - CapitalA) && SmallA <= r <= SmallYa
    ensures c == CapitalYo ==> r == SmallYo
    ensures c == CapitalYi ==> r == SmallYi
    ensures c == CapitalUkrIe ==> r == SmallUkrIe
    ensures c == CapitalUkrI ==> r == SmallUkrI
    ensures IsLowerRussian(c) ==> r == c
  {
    if CapitalA <= c <= CapitalYa then c + (SmallA - CapitalA)
    else if c == CapitalYo then SmallYo
    else if c == CapitalYi then SmallYi
    else if c == CapitalUkrIe then SmallUkrIe
    else if c == CapitalUkrI then SmallUkrI
    else CLocaleToLower(c)
  }

  /** Lower-casing a letter gives a lower-case letter, and doing it twice
      changes nothing more. */
  lemma ToLowerIsLowerCase(c: int)
    requires IsRussianLetter(c)
    ensures IsLowerRussian(ToLowerRussian(c))
    ensures ToLowerRussian(ToLowerRussian(c)) == ToLowerRussian(c)
  {
  }

  /** The bucket of a lower-cased letter: ё goes to 32, а..е to 0..5,
      ж..я to 7..32 (one past their alphabet position), anything else to -1. */
  function BucketIndex(lower: int): (i: int)
    ensures -1 <= i < AlphabetSize
    ensures i != 6
    ensures i == -1 <==> !(lower == SmallYo || SmallA <= lower <= SmallYa)
  {
    if lower == SmallYo then YoBucket
    else if SmallA <= lower <= SmallIe then lower - SmallA
    else if SmallZhe <= lower <= SmallYa then lower - SmallA + 1
    else -1
  }

  /** The letter a bucket is reported under. */
  function LetterOf(i: nat): int
    requires i < AlphabetSize
  {
    if i == YoBucket then SmallYo
    else if i <= 5 then SmallA + i
    else SmallA + i - 1
  }

  /** Reporting inverts the index mapping for every letter except я. */
  lemma LetterOfInvertsBucket(c: int)
    requires (SmallA <= c <= SmallYu) || c == SmallYo
    ensures 0 <= BucketIndex(c) < AlphabetSize
    ensures LetterOf(BucketIndex(c)) == c
  {
  }

  /** я shares the ё bucket and is reported as ё; no bucket is reported as я. */
  lemma YaCountsAsYo()
    ensures BucketIndex(SmallYa) == YoBucket == BucketIndex(SmallYo)
    ensures LetterOf(YoBucket) == SmallYo
    ensures forall i :: 0 <= i < AlphabetSize ==> LetterOf(i) != SmallYa
  {
  }

  /** Two different letters share a bucket only when they are я and ё. */
  lemma BucketCollisions(x: int, y: int)
    requires x != y && BucketIndex(x) == BucketIndex(y) != -1
    ensures (x == SmallYa && y == SmallYo) || (x == SmallYo && y == SmallYa)
  {
  }

  /** Reporting letters increase with the bucket, bucket 6 (never filled)
      sharing its letter with bucket 5. */
  lemma LetterOfIncreasing(i: nat, j: nat)
    requires i < j < AlphabetSize && j != 6
    ensures LetterOf(i) < LetterOf(j)
  {
  }

  /** The bucket a character is counted in, or -1 when it is not counted. */
  function Bucket(c: int): int
  {
    if IsRussianLetter(c) then BucketIndex(ToLowerRussian(c)) else -1
  }

  predicate Counted(c: int)
  {
    0 <= Bucket(c) < AlphabetSize
  }

  /** Counted are exactly the Russian letters of both cases including ё/Ё;
      the Ukrainian letters pass the letter test but get no bucket. */
  lemma CountedLetters(c: int)
    ensures Counted(c) <==>
      (SmallA <= c <= SmallYa) || (CapitalA <= c <= CapitalYa) || c == SmallYo || c == CapitalYo
    ensures c in {SmallYi, CapitalYi, SmallUkrIe, CapitalUkrIe, SmallUkrI, CapitalUkrI} ==>
      IsRussianLetter(c) && Bucket(c) == -1
    ensures Bucket(c) != 6
  {
  }

  /** A capital and its lower-case letter land in the same bucket. */
  lemma CaseInsensitive(c: int)
    requires CapitalA <= c <= CapitalYa
    ensures Bucket(c) == Bucket(c + (SmallA - CapitalA))
    ensures Bucket(CapitalYo) == Bucket(SmallYo)
  {
  }

  /* ---------------------------------------------------------------------
     Sequential reference counts
     --------------------------------------------------------------------- */

  /** Positions of the text counted in bucket b. */
  function Count(text: seq<int>, b: int): nat
    decreases |text|
  {
    if text == [] then 0
    else Count(text[..|text| - 1], b) + (if Bucket(text[|text| - 1]) == b then 1 else 0)
  }

  /** Positions of the text that are counted at all. */
  function Letters(text: seq<int>): nat
    decreases |text|
  {
    if text == [] then 0
    else Letters(text[..|text| - 1]) + (if Counted(text[|text| - 1]) then 1 else 0)
  }

  /** Positions counted in a bucket below k. */
  function CountBelow(text: seq<int>, k: int): nat
    decreases |text|
  {
    if text == [] then 0
    else CountBelow(text[..|text| - 1], k) + (if 0 <= Bucket(text[|text| - 1]) < k then 1 else 0)
  }

  /** The 33 sequential bucket counts. */
  function Tally(text: seq<int>): (sums: seq<int>)
    ensures |sums| == AlphabetSize
  {
    seq(AlphabetSize, b => Count(text, b))
  }

  /** Sum of the first k entries. */
  function PrefixSum(sums: seq<int>, k: nat): int
    requires k <= |sums|
  {
    if k == 0 then 0 else PrefixSum(sums, k - 1) + sums[k - 1]
  }

  lemma {:induction false} CountBelowStep(text: seq<int>, k: nat)
    ensures CountBelow(text, k + 1) == CountBelow(text, k) + Count(text, k)
    decreases |text|
  {
    if text != [] {
      CountBelowStep(text[..|text| - 1], k);
    }
  }

  lemma {:induction false} LettersIsCountBelow(text: seq<int>)
    ensures Letters(text) == CountBelow(text, AlphabetSize)
    decreases |text|
  {
    if text != [] {
      LettersIsCountBelow(text[..|text| - 1]);
    }
  }

  /** The letter total is the sum of all bucket counts. */
  lemma {:induction false} LettersIsSumOfBuckets(text: seq<int>, k: nat)
    requires k <= AlphabetSize
    ensures PrefixSum(Tally(text), k) == CountBelow(text, k)
    ensures k == AlphabetSize ==> PrefixSum(Tally(text), k) == Letters(text)
  {
    if k > 0 {
      LettersIsSumOfBuckets(text, k - 1);
      CountBelowStep(text, k - 1);
    } else {
      CountBelowZero(text);
    }
    LettersIsCountBelow(text);
  }

  lemma {:induction false} CountBelowZero(text: seq<int>)
    ensures CountBelow(text, 0) == 0
    decreases |text|
  {
    if text != [] {
      CountBelowZero(text[..|text| - 1]);
    }
  }

  /** Bucket 6 is never filled. */
  lemma {:induction false} BucketSixEmpty(text: seq<int>)
    ensures Count(text, 6) == 0
    decreases |text|
  {
    if text != [] {
      BucketSixEmpty(text[..|text| - 1]);
    }
  }

  /* ---------------------------------------------------------------------
     Per-thread counts and the partition lemma
     --------------------------------------------------------------------- */

  /** Positions handled by thread t and counted in bucket b. */
  function OwnedCount(text: seq<int>, owner: seq<nat>, t: nat, b: int): nat
    requires |owner| == |text|
    decreases |text|
  {
    if text == [] then 0
    else
      OwnedCount(text[..|text| - 1], owner[..|owner| - 1], t, b)
        + (if owner[|owner| - 1] == t && Bucket(text[|text| - 1]) == b then 1 else 0)
  }

  /** Positions handled by a thread below T and counted in bucket b. */
  function OwnedBelow(text: seq<int>, owner: seq<nat>, threads: nat, b: int): nat
    requires |owner| == |text|
    decreases |text|
  {
    if text == [] then 0
    else
      OwnedBelow(text[..|text| - 1], owner[..|owner| - 1], threads, b)
        + (if owner[|owner| - 1] < threads && Bucket(text[|text| - 1]) == b then 1 else 0)
  }

  /** Bucket b summed over threads 0..T-1. */
  function ThreadSum(text: seq<int>, owner: seq<nat>, threads: nat, b: int): nat
    requires |owner| == |text|
  {
    if threads == 0 then 0
    else ThreadSum(text, owner, threads - 1, b) + OwnedCount(text, owner, threads - 1, b)
  }

  lemma {:induction false} OwnedBelowStep(text: seq<int>, owner: seq<nat>, threads: nat, b: int)
    requires |owner| == |text|
    ensures OwnedBelow(text, owner, threads + 1, b) == OwnedBelow(text, owner, threads, b) + OwnedCount(text, owner, threads, b)
    decreases |text|
  {
    if text != [] {
      OwnedBelowStep(text[..|text| - 1], owner[..|owner| - 1], threads, b);
    }
  }

  lemma {:induction false} ThreadSumIsOwnedBelow(text: seq<int>, owner: seq<nat>, threads: nat, b: int)
    requires |owner| == |text|
    ensures ThreadSum(text, owner, threads, b) == OwnedBelow(text, owner, threads, b)
  {
    if threads == 0 {
      OwnedBelowNone(text, owner, b);
    } else {
      ThreadSumIsOwnedBelow(text, owner, threads - 1, b);
      OwnedBelowStep(text, owner, threads - 1, b);
    }
  }

  lemma {:induction false} OwnedBelowNone(text: seq<int>, owner: seq<nat>, b: int)
    requires |owner| == |text|
    ensures OwnedBelow(text, owner, 0, b) == 0
    decreases |text|
  {
    if text != [] {
      OwnedBelowNone(text[..|text| - 1], owner[..|owner| - 1], b);
    }
  }

  lemma {:induction false} OwnedBelowAll(text: seq<int>, owner: seq<nat>, threads: nat, b: int)
    requires |owner| == |text|
    requires forall i :: 0 <= i < |owner| ==> owner[i] < threads
    ensures OwnedBelow(text, owner, threads, b) == Count(text, b)
    decreases |text|
  {
    if text != [] {
      OwnedBelowAll(text[..|text| - 1], owner[..|owner| - 1], threads, b);
    }
  }

  /** However positions are split among threads, summing a bucket over the
      threads gives the sequential count. */
  lemma PartitionedCountIsSequential(text: seq<int>, owner: seq<nat>, threads: nat, b: int)
    requires |owner| == |text|
    requires forall i :: 0 <= i < |owner| ==> owner[i] < threads
    ensures ThreadSum(text, owner, threads, b) == Count(text, b)
  {
    ThreadSumIsOwnedBelow(text, owner, threads, b);
    OwnedBelowAll(text, owner, threads, b);
  }

  /* ---------------------------------------------------------------------
     The counting pass and the merge, on the flat per-thread array
     --------------------------------------------------------------------- */

  /** Index of thread t's bucket b in the flat array. */
  function Slot(t: nat, b: nat): nat
  {
    t * AlphabetSize + b
  }

  lemma SlotInjective(t: nat, b: nat, t': nat, b': nat)
    requires b < AlphabetSize && b' < AlphabetSize && Slot(t, b) == Slot(t', b')
    ensures t == t' && b == b'
  {
  }

  lemma SlotInRange(t: nat, b: nat, threads: nat)
    requires t < threads && b < AlphabetSize
    ensures Slot(t, b) < threads * AlphabetSize
  {
    assert Slot(t, b) < (t + 1) * AlphabetSize <= threads * AlphabetSize;
  }

  lemma OwnedCountExtend(text: seq<int>, owner: seq<nat>, p: nat, t: nat, b: int)
    requires |owner| == |text| && p < |text|
    ensures OwnedCount(text[..p + 1], owner[..p + 1], t, b)
      == OwnedCount(text[..p], owner[..p], t, b) + (if owner[p] == t && Bucket(text[p]) == b then 1 else 0)
  {
    assert text[..p + 1][..p] == text[..p];
    assert owner[..p + 1][..p] == owner[..p];
  }

  /** The parallel counting loop: every thread adds its positions' letters
      to its own slice, and the letter total is reduced over threads. */
  method CountingPass(text: seq<int>, owner: seq<nat>, threads: nat) returns (localFreq: seq<int>, totalLetters: int)
    requires threads > 0 && |owner| == |text|
    requires forall i :: 0 <= i < |owner| ==> owner[i] < threads
    ensures |localFreq| == threads * AlphabetSize
    ensures forall t, b :: 0 <= t < threads && 0 <= b < AlphabetSize ==>
      localFreq[Slot(t, b)] == OwnedCount(text, owner, t, b)
    ensures totalLetters == Letters(text)
  {
    localFreq := seq(threads * AlphabetSize, _ => 0);
    totalLetters := 0;
    var p := 0;
    while p < |text|
      invariant 0 <= p <= |text|
      invariant |localFreq| == threads * AlphabetSize
      invariant forall t, b :: 0 <= t < threads && 0 <= b < AlphabetSize ==>
        localFreq[Slot(t, b)] == OwnedCount(text[..p], owner[..p], t, b)
      invariant totalLetters == Letters(text[..p])
    {
      var c := text[p];
      assert text[..p + 1][..p] == text[..p];
      if IsRussianLetter(c) {
        var lowerC := ToLowerRussian(c);
        var index := BucketIndex(lowerC);
        if 0 <= index < AlphabetSize {
          SlotInRange(owner[p], index, threads);
          localFreq := localFreq[Slot(owner[p], index) := localFreq[Slot(owner[p], index)] + 1];
          totalLetters := totalLetters + 1;
        }
      }
      forall t, b | 0 <= t < threads && 0 <= b < AlphabetSize
        ensures localFreq[Slot(t, b)] == OwnedCount(text[..p + 1], owner[..p + 1], t, b)
      {
        SlotInRange(t, b, threads);
        OwnedCountExtend(text, owner, p, t, b);
        if Counted(c) {
          if Slot(t, b) == Slot(owner[p], Bucket(c)) {
            SlotInjective(t, b, owner[p], Bucket(c));
          }
        }
      }
      p := p + 1;
    }
    assert text[..|text|] == text;
    assert owner[..|owner|] == owner;
  }

  /** Bucket b of the flat array summed over threads 0..T-1. */
  function ColumnSum(localFreq: seq<int>, threads: nat, b: nat): int
    requires b < AlphabetSize && threads * AlphabetSize <= |localFreq|
  {
    if threads == 0 then 0
    else
      SlotInRange(threads - 1, b, threads);
      ColumnSum(localFreq, threads - 1, b) + localFreq[Slot(threads - 1, b)]
  }

  /** The merge: each global bucket is the sum of that bucket over threads. */
  method MergeBuckets(localFreq: seq<int>, threads: nat) returns (sums: seq<int>)
    requires |localFreq| == threads * AlphabetSize
    ensures |sums| == AlphabetSize
    ensures forall b :: 0 <= b < AlphabetSize ==> sums[b] == ColumnSum(localFreq, threads, b)
  {
    sums := [];
    var i := 0;
    while i < AlphabetSize
      invariant 0 <= i <= AlphabetSize && |sums| == i
      invariant forall b :: 0 <= b < i ==> sums[b] == ColumnSum(localFreq, threads, b)
    {
      var sum := 0;
      var t := 0;
      while t < threads
        invariant 0 <= t <= threads
        invariant sum == ColumnSum(localFreq, t, i)
      {
        SlotInRange(t, i, threads);
        sum := sum + localFreq[Slot(t, i)];
        t := t + 1;
      }
      sums := sums + [sum];
      i := i + 1;
    }
  }

  /** Merging the slices the counting pass produced gives the sequential
      bucket counts. */
  lemma {:induction false} MergedSlicesAreCounts(text: seq<int>, owner: seq<nat>, localFreq: seq<int>, threads: nat, t: nat, b: nat)
    requires |owner| == |text| && |localFreq| == threads * AlphabetSize && t <= threads && b < AlphabetSize
    requires forall u, c :: 0 <= u < threads && 0 <= c < AlphabetSize ==>
      localFreq[Slot(u, c)] == OwnedCount(text, owner, u, c)
    ensures ColumnSum(localFreq, t, b) == ThreadSum(text, owner, t, b)
  {
    if t > 0 {
      MergedSlicesAreCounts(text, owner, localFreq, threads, t - 1, b);
    }
  }

  /* ---------------------------------------------------------------------
     Frequency map and its entries
     --------------------------------------------------------------------- */

  /** The map built from buckets 0..i-1: each bucket with a positive sum is
      stored under its reporting letter. */
  function FrequencyMap(sums: seq<int>, i: nat): map<int, int>
    requires |sums| == AlphabetSize && i <= AlphabetSize
  {
    if i == 0 then map[]
    else
      var m := FrequencyMap(sums, i - 1);
      if sums[i - 1] > 0 then m[LetterOf(i - 1) := sums[i - 1]] else m
  }

  /** The same buckets as a list of (letter, count) pairs in bucket order. */
  function Entries(sums: seq<int>, i: nat): seq<(int, int)>
    requires |sums| == AlphabetSize && i <= AlphabetSize
  {
    if i == 0 then []
    else Entries(sums, i - 1) + (if sums[i - 1] > 0 then [(LetterOf(i - 1), sums[i - 1])] else [])
  }

  /** With bucket 6 empty, the map holds exactly the buckets with a
      positive sum, each under its own letter with its own count. */
  lemma {:induction false} FrequencyMapContents(sums: seq<int>, i: nat)
    requires |sums| == AlphabetSize && i <= AlphabetSize && sums[6] <= 0
    ensures forall b :: 0 <= b < i && b != 6 ==>
      (LetterOf(b) in FrequencyMap(sums, i) <==> sums[b] > 0)
    ensures forall b :: 0 <= b < i && sums[b] > 0 ==> FrequencyMap(sums, i)[LetterOf(b)] == sums[b]
    ensures forall k :: k in FrequencyMap(sums, i) ==>
      exists b :: 0 <= b < i && sums[b] > 0 && LetterOf(b) == k
  {
    if i > 0 {
      FrequencyMapContents(sums, i - 1);
      forall b | 0 <= b < i - 1 && b != 6
        ensures LetterOf(b) != LetterOf(i - 1) || i - 1 == 6
      {
        if i - 1 != 6 {
          LetterOfIncreasing(b, i - 1);
        }
      }
    }
  }

  /** Every entry comes from a bucket with a positive sum, under that
      bucket's letter and with its count. */
  lemma {:induction false} EntriesFromBuckets(sums: seq<int>, i: nat)
    requires |sums| == AlphabetSize && i <= AlphabetSize
    ensures forall a :: 0 <= a < |Entries(sums, i)| ==>
      exists b :: 0 <= b < i && sums[b] > 0 && Entries(sums, i)[a] == (LetterOf(b), sums[b])
  {
    if i > 0 {
      EntriesFromBuckets(sums, i - 1);
      var prev, es := Entries(sums, i - 1), Entries(sums, i);
      forall a | 0 <= a < |es|
        ensures exists b :: 0 <= b < i && sums[b] > 0 && es[a] == (LetterOf(b), sums[b])
      {
        if a < |prev| {
          assert es[a] == prev[a];
        } else {
          assert es[a] == (LetterOf(i - 1), sums[i - 1]);
        }
      }
    } else {
      assert Entries(sums, i) == [];
    }
  }

  /** The entries come in strictly increasing letter order: the order a
      std::map yields them in. */
  lemma {:induction false} EntriesAscending(sums: seq<int>, i: nat)
    requires |sums| == AlphabetSize && i <= AlphabetSize && sums[6] <= 0
    ensures forall a, b :: 0 <= a < b < |Entries(sums, i)| ==> Entries(sums, i)[a].0 < Entries(sums, i)[b].0
  {
    if i > 0 {
      EntriesAscending(sums, i - 1);
      var prev := Entries(sums, i - 1);
      if sums[i - 1] > 0 {
        EntriesFromBuckets(sums, i - 1);
        forall a | 0 <= a < |prev|
          ensures prev[a].0 < LetterOf(i - 1)
        {
          var b :| 0 <= b < i - 1 && sums[b] > 0 && prev[a] == (LetterOf(b), sums[b]);
          LetterOfIncreasing(b, i - 1);
        }
      }
    }
  }

  /** The entries list exactly the map's (letter, count) pairs. */
  lemma EntriesListMap(sums: seq<int>, i: nat)
    requires |sums| == AlphabetSize && i <= AlphabetSize && sums[6] <= 0
    ensures forall k, v :: (k, v) in Entries(sums, i) <==> k in FrequencyMap(sums, i) && FrequencyMap(sums, i)[k] == v
  {
    var es := Entries(sums, i);
    var m := FrequencyMap(sums, i);
    FrequencyMapContents(sums, i);
    EntriesFromBuckets(sums, i);
    forall k, v
      ensures (k, v) in es <==> k in m && m[k] == v
    {
      if (k, v) in es {
        var a :| 0 <= a < |es| && es[a] == (k, v);
        var b :| 0 <= b < i && sums[b] > 0 && es[a] == (LetterOf(b), sums[b]);
      }
      if k in m && m[k] == v {
        var b :| 0 <= b < i && sums[b] > 0 && LetterOf(b) == k;
        EntryOfBucket(sums, i, b);
      }
    }
  }

  /** A bucket with a positive sum has its entry. */
  lemma {:induction false} EntryOfBucket(sums: seq<int>, i: nat, b: nat)
    requires |sums| == AlphabetSize && b < i <= AlphabetSize && sums[b] > 0
    ensures (LetterOf(b), sums[b]) in Entries(sums, i)
  {
    if b < i - 1 {
      EntryOfBucket(sums, i - 1, b);
    }
  }

  /** Sum of the counts of a list of entries. */
  function EntrySum(es: seq<(int, int)>): int
  {
    if es == [] then 0 else EntrySum(es[..|es| - 1]) + es[|es| - 1].1
  }

  /** With no negative bucket, the entries' counts add up to the sum of all
      buckets: dropping empty buckets loses nothing. */
  lemma {:induction false} EntrySumIsPrefixSum(sums: seq<int>, i: nat)
    requires |sums| == AlphabetSize && i <= AlphabetSize
    requires forall b :: 0 <= b < AlphabetSize ==> sums[b] >= 0
    ensures EntrySum(Entries(sums, i)) == PrefixSum(sums, i)
  {
    if i > 0 {
      EntrySumIsPrefixSum(sums, i - 1);
      var prev := Entries(sums, i - 1);
      if sums[i - 1] > 0 {
        var e := (LetterOf(i - 1), sums[i - 1]);
        assert (prev + [e])[..|prev|] == prev;
      } else {
        assert prev + [] == prev;
      }
    }
  }

  /* ---------------------------------------------------------------------
     Sorting by frequency
     --------------------------------------------------------------------- */

  predicate NonIncreasing(s: seq<(int, int)>)
  {
    forall a, b :: 0 <= a < b < |s| ==> s[a].1 >= s[b].1
  }

  /** Putting an entry with the largest count in front keeps the order. */
  lemma ConsNonIncreasing(h: (int, int), s: seq<(int, int)>)
    requires NonIncreasing(s)
    requires s == [] || h.1 >= s[0].1
    ensures NonIncreasing([h] + s)
  {
    forall a, b | 0 <= a < b < |[h] + s|
      ensures ([h] + s)[a].1 >= ([h] + s)[b].1
    {
      if a == 0 {
        assert ([h] + s)[b] == s[b - 1];
      }
    }
  }

  /** Insert an entry before the first entry with a smaller count. */
  function InsertByCount(x: (int, int), s: seq<(int, int)>): (r: seq<(int, int)>)
    requires NonIncreasing(s)
    ensures NonIncreasing(r)
    ensures multiset(r) == multiset(s) + multiset{x}
    ensures |r| == |s| + 1 && (r[0] == x || (s != [] && r[0] == s[0]))
  {
    if s == [] then [x]
    else if s[0].1 >= x.1 then
      var rest := InsertByCount(x, s[1..]);
      assert s == [s[0]] + s[1..];
      ConsNonIncreasing(s[0], rest);
      [s[0]] + rest
    else
      ConsNonIncreasing(x, s);
      [x] + s
  }

  /** The entries ordered by non-increasing count.  The source's sort is not
      stable, so the order among equal counts is not part of the contract. */
  function SortByFrequency(entries: seq<(int, int)>): (r: seq<(int, int)>)
    ensures NonIncreasing(r)
    ensures multiset(r) == multiset(entries)
  {
    if entries == [] then []
    else
      assert entries == [entries[0]] + entries[1..];
      InsertByCount(entries[0], SortByFrequency(entries[1..]))
  }

  /* ---------------------------------------------------------------------
     The whole analysis
     --------------------------------------------------------------------- */

  /** The thread count used: the request when positive, else the runtime's
      maximum. */
  function EffectiveThreads(threads: int, maxThreads: nat): (t: nat)
    requires maxThreads > 0
    ensures t > 0
    ensures threads > 0 ==> t == threads
    ensures threads <= 0 ==> t == maxThreads
  {
    if threads <= 0 then maxThreads else threads
  }

  datatype Analysis = Analysis(
    letterFrequency: map<int, int>,
    sortedLetters: seq<(int, int)>,
    totalLetters: int,
    totalCharacters: int,
    threadsUsed: int)

  /** The analysis of a text under a given split of positions among the
      threads.  Its frequency map and letter total are the sequential ones,
      whatever the split and the thread count. */
  method AnalyzeText(text: seq<int>, threads: int, maxThreads: nat, owner: seq<nat>) returns (r: Analysis)
    requires maxThreads > 0 && |owner| == |text|
    requires forall i :: 0 <= i < |owner| ==> owner[i] < EffectiveThreads(threads, maxThreads)
    ensures r.threadsUsed == EffectiveThreads(threads, maxThreads)
    ensures r.totalCharacters == |text|
    ensures r.totalLetters == Letters(text) == PrefixSum(Tally(text), AlphabetSize)
    ensures r.letterFrequency == FrequencyMap(Tally(text), AlphabetSize)
    ensures NonIncreasing(r.sortedLetters)
    ensures multiset(r.sortedLetters) == multiset(Entries(Tally(text), AlphabetSize))
    ensures EntrySum(r.sortedLetters) == r.totalLetters
    ensures forall k, v :: (k, v) in r.sortedLetters <==> k in r.letterFrequency && r.letterFrequency[k] == v
  {
    var used := EffectiveThreads(threads, maxThreads);
    var localFreq, totalLetters := CountingPass(text, owner, used);
    var sums := MergeBuckets(localFreq, used);
    forall b | 0 <= b < AlphabetSize
      ensures sums[b] == Count(text, b)
    {
      MergedSlicesAreCounts(text, owner, localFreq, used, used, b);
      PartitionedCountIsSequential(text, owner, used, b);
    }
    assert sums == Tally(text);
    var frequency := FrequencyMap(sums, AlphabetSize);
    var sorted := SortByFrequency(Entries(sums, AlphabetSize));
    LettersIsSumOfBuckets(text, AlphabetSize);
    EntrySumIsPrefixSum(sums, AlphabetSize);
    EntrySumPermutation(sorted, Entries(sums, AlphabetSize));
    BucketSixEmpty(text);
    EntriesListMap(sums, AlphabetSize);
    forall k, v
      ensures (k, v) in sorted <==> (k, v) in Entries(sums, AlphabetSize)
    {
      assert (k, v) in sorted <==> (k, v) in multiset(sorted);
    }
    r := Analysis(frequency, sorted, totalLetters, |text|, used);
  }

  lemma {:induction false} EntrySumConcat(a: seq<(int, int)>, b: seq<(int, int)>)
    ensures EntrySum(a + b) == EntrySum(a) + EntrySum(b)
    decreases |b|
  {
    if b == [] {
      assert a + b == a;
    } else {
      assert (a + b)[..|a + b| - 1] == a + b[..|b| - 1];
      EntrySumConcat(a, b[..|b| - 1]);
    }
  }

  /** Taking one entry out of a list takes its count out of the total. */
  lemma EntrySumRemove(b: seq<(int, int)>, j: nat)
    requires j < |b|
    ensures EntrySum(b) == EntrySum(b[..j] + b[j + 1..]) + b[j].1
  {
    var pre, x, post := b[..j], b[j], b[j + 1..];
    assert b == pre + ([x] + post);
    EntrySumConcat(pre, [x] + post);
    EntrySumConcat([x], post);
    EntrySumConcat(pre, post);
    assert EntrySum([x]) == x.1 by {
      assert [x][..0] == [];
    }
  }

  lemma MultisetRemove(b: seq<(int, int)>, j: nat)
    requires j < |b|
    ensures multiset(b[..j] + b[j + 1..]) == multiset(b) - multiset{b[j]}
  {
    assert b == b[..j] + [b[j]] + b[j + 1..];
  }

  /** Reordering entries does not change their total. */
  lemma {:induction false} EntrySumPermutation(a: seq<(int, int)>, b: seq<(int, int)>)
    requires multiset(a) == multiset(b)
    ensures EntrySum(a) == EntrySum(b)
    decreases |a|
  {
    if a == [] {
      assert |b| == |multiset(b)| == 0;
    } else {
      var x := a[|a| - 1];
      var a' := a[..|a| - 1];
      assert a == a' + [x];
      assert x in multiset(b);
      var j :| 0 <= j < |b| && b[j] == x;
      MultisetRemove(b, j);
      EntrySumPermutation(a', b[..j] + b[j + 1..]);
      EntrySumRemove(b, j);
    }
  }

  /** An empty text has no letters, an empty map and no entries. */
  lemma EmptyText()
    ensures Letters([]) == 0
    ensures FrequencyMap(Tally([]), AlphabetSize) == map[]
    ensures Entries(Tally([]), AlphabetSize) == []
  {
    var sums := Tally([]);
    assert forall b :: 0 <= b < AlphabetSize ==> sums[b] == 0;
    EmptyBuckets(sums, AlphabetSize);
  }

  lemma {:induction false} EmptyBuckets(sums: seq<int>, i: nat)
    requires |sums| == AlphabetSize && i <= AlphabetSize
    requires forall b :: 0 <= b < AlphabetSize ==> sums[b] == 0
    ensures FrequencyMap(sums, i) == map[] && Entries(sums, i) == []
  {
    if i > 0 {
      EmptyBuckets(sums, i - 1);
    }
  }
}
