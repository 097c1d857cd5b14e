/**
 City-capture simulation: the bookkeeping of the commander (rank 0) and of
 the city processes (ranks 1..N), with the message-passing layer replaced by
 explicit lists of the sends each step performs.  Values a process receives
 (a cipher part, a step number) are parameters of the step that consumes
 them; hash values and clock readings are arbitrary parameters.
 */
module CityCapture {

  datatype Option<T> = None | Some(value: T)

  /* ---------------------------------------------------------------------
     Command-line city count
     --------------------------------------------------------------------- */

  const MinCities := 2
  const MaxCities := 50
  const DefaultCities := 20

  /** The number of cities the wrapper hands to the simulation: the parsed
      argument when it lies in [2, 50], the default 20 otherwise. */
  function CityCount(arg: Option<int>): (n: int)
    ensures MinCities <= n <= MaxCities
    ensures arg.Some? && MinCities <= arg.value <= MaxCities ==> n == arg.value
    ensures !(arg.Some? && MinCities <= arg.value <= MaxCities) ==> n == DefaultCities
  {
    match arg
    case None => DefaultCities
    case Some(k) => if k < MinCities || k > MaxCities then DefaultCities else k
  }

  /* ---------------------------------------------------------------------
     Roles
     --------------------------------------------------------------------- */

  datatype Role = Commander | CityRank(cityId: nat) | IdleRank

  /** Rank 0 commands, ranks 1..N are the cities, higher ranks stay idle. */
  function RoleOf(rank: nat, numCities: int): (r: Role)
    ensures r == Commander <==> rank == 0
    ensures r.CityRank? <==> 1 <= rank <= numCities
    ensures r.CityRank? ==> r.cityId == rank
    ensures r == IdleRank <==> rank > 0 && rank > numCities
  {
    if rank == 0 then Commander
    else if rank <= numCities then CityRank(rank)
    else IdleRank
  }

  /* ---------------------------------------------------------------------
     Cipher parts
     --------------------------------------------------------------------- */

  const CipherBase := 1000
  const CipherSpan := 1000

  /** A cipher part: the XOR of two 64-bit hash values (of the seed and of
      the clock reading), reduced modulo 1000 and shifted by 1000. */
  function CipherPart(seedHash: bv64, clockHash: bv64): (part: int)
    ensures CipherBase <= part < CipherBase + CipherSpan
  {
    ((seedHash ^ clockHash) as int) % CipherSpan + CipherBase
  }

  /* ---------------------------------------------------------------------
     Capture order
     --------------------------------------------------------------------- */

  /** The ids 1..n in increasing order: the capture order before shuffling. */
  function InitialOrder(n: nat): (r: seq<int>)
    ensures |r| == n
  {
    if n == 0 then [] else InitialOrder(n - 1) + [n]
  }

  /** Position i of the unshuffled order holds id i+1. */
  lemma {:induction false} InitialOrderValues(n: nat)
    ensures forall i :: 0 <= i < n ==> InitialOrder(n)[i] == i + 1
  {
    if n > 0 {
      InitialOrderValues(n - 1);
      assert InitialOrder(n) == InitialOrder(n - 1) + [n];
    }
  }

  /** A capture order for n cities is a rearrangement of 1..n. */
  ghost predicate IsCaptureOrder(order: seq<int>, n: nat)
  {
    multiset(order) == multiset(InitialOrder(n))
  }

  predicate Distinct(s: seq<int>)
  {
    forall i, j :: 0 <= i < j < |s| ==> s[i] != s[j]
  }

  /** The shuffle as a Fisher-Yates pass: from the last position down to 1,
      position i is swapped with position draws[i] mod (i + 1).  The draws
      stand for the random engine, so any swap sequence of that shape is
      covered. */
  method Shuffle(order: seq<int>, draws: seq<nat>) returns (r: seq<int>)
    requires |draws| == |order|
    ensures |r| == |order|
    ensures multiset(r) == multiset(order)
  {
    r := order;
    var i := |r|;
    while i > 1
      invariant 0 <= i <= |r| == |order|
      invariant multiset(r) == multiset(order)
    {
      i := i - 1;
      var j := draws[i] % (i + 1);
      r := r[i := r[j]][j := r[i]];
    }
  }

  /** The commander's order: 1..n, then shuffled. */
  method MakeCaptureOrder(n: nat, draws: seq<nat>) returns (order: seq<int>)
    requires |draws| == n
    ensures IsCaptureOrder(order, n)
  {
    order := Shuffle(InitialOrder(n), draws);
  }

  lemma {:induction false} InitialOrderCounts(n: nat, x: int)
    ensures multiset(InitialOrder(n))[x] == if 1 <= x <= n then 1 else 0
  {
    if n == 0 {
      assert InitialOrder(n) == [];
    } else {
      var prev := InitialOrder(n - 1);
      InitialOrderCounts(n - 1, x);
      assert InitialOrder(n) == prev + [n];
      AppendCount(prev, n, x);
    }
  }

  lemma AppendCount(s: seq<int>, y: int, x: int)
    ensures multiset(s + [y])[x] == multiset(s)[x] + (if x == y then 1 else 0)
  {
  }

  /** A capture order holds every id 1..n exactly once and nothing else. */
  lemma CaptureOrderIsPermutation(order: seq<int>, n: nat)
    requires IsCaptureOrder(order, n)
    ensures |order| == n
    ensures forall i :: 0 <= i < |order| ==> 1 <= order[i] <= n
    ensures forall x :: 1 <= x <= n ==> x in order
    ensures Distinct(order)
  {
    assert |order| == |multiset(order)| == |multiset(InitialOrder(n))| == n;
    forall i | 0 <= i < |order|
      ensures 1 <= order[i] <= n
    {
      InitialOrderCounts(n, order[i]);
      assert order[i] in multiset(order);
    }
    forall x | 1 <= x <= n
      ensures x in order
    {
      InitialOrderCounts(n, x);
      assert x in multiset(order);
    }
    forall i, j | 0 <= i < j < |order|
      ensures order[i] != order[j]
    {
      InitialOrderCounts(n, order[i]);
      assert order == order[..j] + order[j..];
      assert order[i] in multiset(order[..j]) by { assert order[..j][i] == order[i]; }
    }
  }

  /* ---------------------------------------------------------------------
     Messages and tags
     --------------------------------------------------------------------- */

  /** A point-to-point send: destination rank, tag, one integer payload. */
  datatype Message = Message(dest: int, tag: int, payload: int)

  const CommanderRank := 0
  const TagStep := 0
  const TagOwnPart := 1
  function TagRelay(step: int): int { 2 + step }
  function TagFirstCityPart(step: int): int { 3 + step }
  function TagSecondRelay(step: int): int { 4 + step }
  function TagToCurrent(step: int): int { 5 + step }
  const TagFinish := 100
  const FinishSignal := -1

  /** The subsequence of messages sent with the given tag. */
  function WithTag(ms: seq<Message>, tag: int): seq<Message>
  {
    if ms == [] then []
    else (if ms[0].tag == tag then [ms[0]] else []) + WithTag(ms[1..], tag)
  }

  /** The destinations of a list of messages, in sending order. */
  function Dests(ms: seq<Message>): (r: seq<int>)
    ensures |r| == |ms|
    ensures forall i :: 0 <= i < |ms| ==> r[i] == ms[i].dest
  {
    if ms == [] then [] else [ms[0].dest] + Dests(ms[1..])
  }

  /** One send of the same payload, with the same tag, to each destination. */
  function Relay(dests: seq<int>, tag: int, payload: int): (r: seq<Message>)
    ensures |r| == |dests|
    ensures forall i :: 0 <= i < |dests| ==> r[i] == Message(dests[i], tag, payload)
  {
    if dests == [] then [] else [Message(dests[0], tag, payload)] + Relay(dests[1..], tag, payload)
  }

  /** The elements of s other than x, in order. */
  function Without(s: seq<int>, x: int): seq<int>
  {
    if s == [] then [] else (if s[0] == x then [] else [s[0]]) + Without(s[1..], x)
  }

  lemma {:induction false} WithTagAppend(a: seq<Message>, b: seq<Message>, tag: int)
    ensures WithTag(a + b, tag) == WithTag(a, tag) + WithTag(b, tag)
  {
    if a == [] {
      assert a + b == b;
    } else {
      WithTagAppend(a[1..], b, tag);
      assert (a + b)[0] == a[0];
      assert (a + b)[1..] == a[1..] + b;
      AppendAssoc(if a[0].tag == tag then [a[0]] else [], WithTag(a[1..], tag), WithTag(b, tag));
    }
  }

  lemma AppendAssoc(x: seq<Message>, y: seq<Message>, z: seq<Message>)
    ensures x + (y + z) == (x + y) + z
  {
  }

  lemma WithTagRelay(dests: seq<int>, tag: int, payload: int, other: int)
    ensures WithTag(Relay(dests, tag, payload), tag) == Relay(dests, tag, payload)
    ensures other != tag ==> WithTag(Relay(dests, tag, payload), other) == []
  {
    if dests != [] {
      WithTagRelay(dests[1..], tag, payload, other);
    }
  }

  lemma WithoutSubset(s: seq<int>, x: int, y: int)
    requires y in Without(s, x)
    ensures y in s && y != x
  {
    if s != [] && y !in Without(s[1..], x) {
      assert y == s[0];
    } else if s != [] {
      WithoutSubset(s[1..], x, y);
    }
  }

  lemma RelayMember(dests: seq<int>, tag: int, payload: int, m: Message)
    requires m in Relay(dests, tag, payload)
    ensures m.dest in dests && m.tag == tag && m.payload == payload
  {
    var i :| 0 <= i < |dests| && Relay(dests, tag, payload)[i] == m;
  }

  lemma WithoutHead(s: seq<int>)
    requires |s| > 0 && Distinct(s)
    ensures Without(s, s[0]) == s[1..]
  {
    WithoutAbsent(s[1..], s[0]);
  }

  lemma WithoutAbsent(s: seq<int>, x: int)
    requires x !in s
    ensures Without(s, x) == s
  {
    if s != [] {
      WithoutAbsent(s[1..], x);
    }
  }

  /* ---------------------------------------------------------------------
     Commander
     --------------------------------------------------------------------- */

  /** The commander's bookkeeping: the capture order, the index of the next
      step, the list of cities captured so far and the cipher slots (one per
      step, zero until filled). */
  datatype CommanderState = CommanderState(order: seq<int>, step: nat, captured: seq<int>, allCiphers: seq<int>)

  /** The state before the first step: nothing captured, all slots zero. */
  function InitCommander(order: seq<int>): (st: CommanderState)
    ensures st.step == 0 && st.captured == [] && st.order == order
    ensures |st.allCiphers| == |order|
    ensures forall i :: 0 <= i < |order| ==> st.allCiphers[i] == 0
  {
    CommanderState(order, 0, [], seq(|order|, _ => 0))
  }

  /** The result of one commander step: the next state and the sends. */
  datatype CommanderStep = CommanderStep(next: CommanderState, sends: seq<Message>)

  /** One capture step.  `part` is the value received from the captured city
      on tag 1; `newPart` is the value received from the first captured city
      on tag 3+step (used only when some city was captured before). */
  function StepCommander(st: CommanderState, part: int, newPart: int): (r: CommanderStep)
    requires st.step < |st.order| && st.step < |st.allCiphers|
    ensures r.next.order == st.order && r.next.step == st.step + 1
    ensures r.next.captured == st.captured + [st.order[st.step]]
    ensures |r.next.allCiphers| == |st.allCiphers|
    ensures r.next.allCiphers[st.step] == part
    ensures forall i :: 0 <= i < |st.allCiphers| && i != st.step ==> r.next.allCiphers[i] == st.allCiphers[i]
    ensures WithTag(r.sends, TagStep) == [Message(st.order[st.step], TagStep, st.step)]
    ensures WithTag(r.sends, TagRelay(st.step)) == Relay(st.captured, TagRelay(st.step), part)
    ensures st.captured == [] ==>
      WithTag(r.sends, TagSecondRelay(st.step)) == [] && WithTag(r.sends, TagToCurrent(st.step)) == []
    ensures st.captured != [] ==>
      WithTag(r.sends, TagSecondRelay(st.step))
        == Relay(Without(st.captured, st.captured[0]), TagSecondRelay(st.step), newPart)
    ensures st.captured != [] ==>
      WithTag(r.sends, TagToCurrent(st.step)) == [Message(st.order[st.step], TagToCurrent(st.step), newPart)]
    ensures forall m :: m in r.sends ==>
      (m.tag == TagStep || m.tag == TagRelay(st.step) || m.tag == TagSecondRelay(st.step) || m.tag == TagToCurrent(st.step))
      && (m.dest == st.order[st.step] || m.dest in st.captured)
  {
    var s := st.step;
    var current := st.order[s];
    StepSendsByTag(current, s, st.captured, part, newPart);
    StepSendsOnlyStepTags(current, s, st.captured, part, newPart);
    CommanderStep(
      st.(step := s + 1, captured := st.captured + [current], allCiphers := st.allCiphers[s := part]),
      StepSends(current, s, st.captured, part, newPart))
  }

  /** The sends of one step, in program order: the step notice to the
      current city, the fresh part to every captured city, and (once some
      city was captured) the first city's part to the other captured cities
      and to the current city. */
  function StepSends(current: int, s: int, captured: seq<int>, part: int, newPart: int): seq<Message>
  {
    [Message(current, TagStep, s)]
      + Relay(captured, TagRelay(s), part)
      + SecondRelay(current, s, captured, newPart)
  }

  function SecondRelay(current: int, s: int, captured: seq<int>, newPart: int): seq<Message>
  {
    if captured == [] then []
    else (Relay(Without(captured, captured[0]), TagSecondRelay(s), newPart)
          + [Message(current, TagToCurrent(s), newPart)])
  }

  /** A step sends on no tag but its own four, and only to the current city
      or to a city captured before it. */
  lemma StepSendsOnlyStepTags(current: int, s: int, captured: seq<int>, part: int, newPart: int)
    ensures forall m :: m in StepSends(current, s, captured, part, newPart) ==>
      (m.tag == TagStep || m.tag == TagRelay(s) || m.tag == TagSecondRelay(s) || m.tag == TagToCurrent(s))
      && (m.dest == current || m.dest in captured)
  {
    forall m | m in StepSends(current, s, captured, part, newPart)
      ensures (m.tag == TagStep || m.tag == TagRelay(s) || m.tag == TagSecondRelay(s) || m.tag == TagToCurrent(s))
      ensures m.dest == current || m.dest in captured
    {
      if m in Relay(captured, TagRelay(s), part) {
        RelayMember(captured, TagRelay(s), part, m);
      } else if captured != [] && m in Relay(Without(captured, captured[0]), TagSecondRelay(s), newPart) {
        RelayMember(Without(captured, captured[0]), TagSecondRelay(s), newPart, m);
        WithoutSubset(captured, captured[0], m.dest);
      }
    }
  }

  lemma WithTagSingle(m: Message, tag: int)
    ensures WithTag([m], tag) == if m.tag == tag then [m] else []
  {
    assert [m][1..] == [];
  }

  /** Filtering the sends of a step by one tag, part by part. */
  lemma WithTagStepSends(current: int, s: nat, captured: seq<int>, part: int, newPart: int, tag: int)
    ensures WithTag(StepSends(current, s, captured, part, newPart), tag)
      == WithTag([Message(current, TagStep, s)], tag)
       + WithTag(Relay(captured, TagRelay(s), part), tag)
       + WithTag(SecondRelay(current, s, captured, newPart), tag)
  {
    var notify := [Message(current, TagStep, s)];
    var relay := Relay(captured, TagRelay(s), part);
    var second := SecondRelay(current, s, captured, newPart);
    assert StepSends(current, s, captured, part, newPart) == notify + relay + second;
    WithTagAppend(notify, relay, tag);
    WithTagAppend(notify + relay, second, tag);
  }

  lemma WithTagSecondRelay(current: int, s: nat, captured: seq<int>, newPart: int, tag: int)
    requires captured != []
    ensures WithTag(SecondRelay(current, s, captured, newPart), tag)
      == WithTag(Relay(Without(captured, captured[0]), TagSecondRelay(s), newPart), tag)
       + WithTag([Message(current, TagToCurrent(s), newPart)], tag)
  {
    WithTagAppend(Relay(Without(captured, captured[0]), TagSecondRelay(s), newPart),
                  [Message(current, TagToCurrent(s), newPart)], tag);
  }

  /** The sends of a step filtered by a tag other than 4+s and 5+s: the
      secondary relay contributes nothing. */
  lemma SecondRelayOtherTag(current: int, s: nat, captured: seq<int>, newPart: int, tag: int)
    requires tag != TagSecondRelay(s) && tag != TagToCurrent(s)
    ensures WithTag(SecondRelay(current, s, captured, newPart), tag) == []
  {
    if captured != [] {
      var ds := Without(captured, captured[0]);
      WithTagSecondRelay(current, s, captured, newPart, tag);
      WithTagSingle(Message(current, TagToCurrent(s), newPart), tag);
      WithTagRelay(ds, TagSecondRelay(s), newPart, tag);
    }
  }

  lemma StepSendsTagStep(current: int, s: nat, captured: seq<int>, part: int, newPart: int)
    ensures WithTag(StepSends(current, s, captured, part, newPart), TagStep) == [Message(current, TagStep, s)]
  {
    WithTagStepSends(current, s, captured, part, newPart, TagStep);
    WithTagSingle(Message(current, TagStep, s), TagStep);
    WithTagRelay(captured, TagRelay(s), part, TagStep);
    SecondRelayOtherTag(current, s, captured, newPart, TagStep);
  }

  lemma StepSendsTagRelay(current: int, s: nat, captured: seq<int>, part: int, newPart: int)
    ensures WithTag(StepSends(current, s, captured, part, newPart), TagRelay(s)) == Relay(captured, TagRelay(s), part)
  {
    WithTagStepSends(current, s, captured, part, newPart, TagRelay(s));
    WithTagSingle(Message(current, TagStep, s), TagRelay(s));
    WithTagRelay(captured, TagRelay(s), part, TagRelay(s));
    SecondRelayOtherTag(current, s, captured, newPart, TagRelay(s));
  }

  lemma StepSendsTagSecondRelay(current: int, s: nat, captured: seq<int>, part: int, newPart: int)
    ensures captured == [] ==>
      WithTag(StepSends(current, s, captured, part, newPart), TagSecondRelay(s)) == []
    ensures captured != [] ==>
      WithTag(StepSends(current, s, captured, part, newPart), TagSecondRelay(s))
        == Relay(Without(captured, captured[0]), TagSecondRelay(s), newPart)
  {
    var tag := TagSecondRelay(s);
    var second := WithTag(SecondRelay(current, s, captured, newPart), tag);
    WithTagStepSends(current, s, captured, part, newPart, tag);
    WithTagSingle(Message(current, TagStep, s), tag);
    WithTagRelay(captured, TagRelay(s), part, tag);
    DropEmptyParts([], [], second);
    if captured != [] {
      var ds := Without(captured, captured[0]);
      WithTagSecondRelay(current, s, captured, newPart, tag);
      WithTagSingle(Message(current, TagToCurrent(s), newPart), tag);
      WithTagRelay(ds, tag, newPart, tag);
      DropEmptySuffix(Relay(ds, tag, newPart), []);
    }
  }

  lemma StepSendsTagToCurrent(current: int, s: nat, captured: seq<int>, part: int, newPart: int)
    ensures captured == [] ==>
      WithTag(StepSends(current, s, captured, part, newPart), TagToCurrent(s)) == []
    ensures captured != [] ==>
      WithTag(StepSends(current, s, captured, part, newPart), TagToCurrent(s))
        == [Message(current, TagToCurrent(s), newPart)]
  {
    var tag := TagToCurrent(s);
    var second := WithTag(SecondRelay(current, s, captured, newPart), tag);
    WithTagStepSends(current, s, captured, part, newPart, tag);
    WithTagSingle(Message(current, TagStep, s), tag);
    WithTagRelay(captured, TagRelay(s), part, tag);
    DropEmptyParts([], [], second);
    if captured != [] {
      var ds := Without(captured, captured[0]);
      WithTagSecondRelay(current, s, captured, newPart, tag);
      WithTagSingle(Message(current, tag, newPart), tag);
      WithTagRelay(ds, TagSecondRelay(s), newPart, tag);
      DropEmptyParts([], [], [Message(current, tag, newPart)]);
    }
  }

  lemma DropEmptyParts(x: seq<Message>, y: seq<Message>, z: seq<Message>)
    requires x == [] && y == []
    ensures x + y + z == z && x + z == z
  {
  }

  lemma DropEmptySuffix(x: seq<Message>, y: seq<Message>)
    requires y == []
    ensures x + y == x
  {
  }

  lemma StepSendsByTag(current: int, s: nat, captured: seq<int>, part: int, newPart: int)
    ensures WithTag(StepSends(current, s, captured, part, newPart), TagStep) == [Message(current, TagStep, s)]
    ensures WithTag(StepSends(current, s, captured, part, newPart), TagRelay(s)) == Relay(captured, TagRelay(s), part)
    ensures captured == [] ==>
      WithTag(StepSends(current, s, captured, part, newPart), TagSecondRelay(s)) == [] &&
      WithTag(StepSends(current, s, captured, part, newPart), TagToCurrent(s)) == []
    ensures captured != [] ==>
      WithTag(StepSends(current, s, captured, part, newPart), TagSecondRelay(s))
        == Relay(Without(captured, captured[0]), TagSecondRelay(s), newPart)
    ensures captured != [] ==>
      WithTag(StepSends(current, s, captured, part, newPart), TagToCurrent(s))
        == [Message(current, TagToCurrent(s), newPart)]
  {
    StepSendsTagStep(current, s, captured, part, newPart);
    StepSendsTagRelay(current, s, captured, part, newPart);
    StepSendsTagSecondRelay(current, s, captured, part, newPart);
    StepSendsTagToCurrent(current, s, captured, part, newPart);
  }

  /** The commander's invariant at the start of a step: the captured list is
      the prefix of the order up to the step. */
  ghost predicate CommanderInv(st: CommanderState, n: nat)
  {
    && IsCaptureOrder(st.order, n)
    && |st.order| == n
    && st.step <= n
    && |st.allCiphers| == n
    && st.captured == st.order[..st.step]
  }

  lemma DestsRelay(dests: seq<int>, tag: int, payload: int)
    ensures Dests(Relay(dests, tag, payload)) == dests
  {
  }

  /** A step keeps the captured list equal to the order's prefix. */
  lemma StepKeepsInv(st: CommanderState, n: nat, part: int, newPart: int)
    requires CommanderInv(st, n) && st.step < n
    ensures CommanderInv(StepCommander(st, part, newPart).next, n)
  {
    assert st.order[..st.step + 1] == st.order[..st.step] + [st.order[st.step]];
  }

  /** From the second step on, the first city's part is relayed on tag 4+s
      to every earlier city except the first. */
  lemma SecondRelayDests(st: CommanderState, n: nat, part: int, newPart: int)
    requires CommanderInv(st, n) && 0 < st.step < n
    ensures Dests(WithTag(StepCommander(st, part, newPart).sends, TagSecondRelay(st.step))) == st.order[1..st.step]
  {
    CaptureOrderIsPermutation(st.order, n);
    var pre := st.order[..st.step];
    assert Distinct(pre);
    WithoutHead(pre);
    assert pre[1..] == st.order[1..st.step];
    DestsRelay(pre[1..], TagSecondRelay(st.step), newPart);
  }

  /** A step keeps the captured list equal to the order's prefix; the generated
      part goes, on tag 2+s, to exactly the s earlier cities in capture
      order; from the second step on, the first city's part goes on tag 4+s
      to every earlier city except the first, and on tag 5+s to the current
      city. */
  lemma StepKeepsCapturedPrefix(st: CommanderState, n: nat, part: int, newPart: int)
    requires CommanderInv(st, n) && st.step < n
    ensures CommanderInv(StepCommander(st, part, newPart).next, n)
    ensures Dests(WithTag(StepCommander(st, part, newPart).sends, TagRelay(st.step))) == st.order[..st.step]
    ensures st.step == 0 ==> WithTag(StepCommander(st, part, newPart).sends, TagSecondRelay(st.step)) == []
    ensures st.step > 0 ==>
      Dests(WithTag(StepCommander(st, part, newPart).sends, TagSecondRelay(st.step))) == st.order[1..st.step]
    ensures st.step > 0 ==>
      Dests(WithTag(StepCommander(st, part, newPart).sends, TagToCurrent(st.step))) == [st.order[st.step]]
  {
    StepKeepsInv(st, n, part, newPart);
    DestsRelay(st.captured, TagRelay(st.step), part);
    if st.step > 0 {
      SecondRelayDests(st, n, part, newPart);
    }
  }

  /** The sends of the first k steps of the capture loop, in program order:
      step s is taken with the cities before it captured. */
  function AllStepSends(order: seq<int>, parts: seq<int>, newParts: seq<int>, k: nat): seq<Message>
    requires k <= |order| && |parts| == |order| && |newParts| == |order|
  {
    if k == 0 then [] else
      var s := k - 1;
      AllStepSends(order, parts, newParts, s) + StepSends(order[s], s, order[..s], parts[s], newParts[s])
  }

  /** The capture loop's invariant after `st.step` steps: the captured list
      is the order's prefix, the filled slots hold the received parts and the
      rest are zero, and the log holds the sends of the steps taken. */
  ghost predicate RunState(st: CommanderState, order: seq<int>, parts: seq<int>, newParts: seq<int>, log: seq<Message>)
  {
    && |parts| == |order| && |newParts| == |order|
    && st.order == order && st.step <= |order|
    && st.captured == order[..st.step]
    && |st.allCiphers| == |order|
    && (forall i :: 0 <= i < st.step ==> st.allCiphers[i] == parts[i])
    && (forall i :: st.step <= i < |order| ==> st.allCiphers[i] == 0)
    && log == AllStepSends(order, parts, newParts, st.step)
  }

  /** The whole capture loop, one step per city in the order.  parts[s] is
      the part the city captured at step s delivers; newParts[s] the one the
      first city delivers at step s. */
  method RunCommander(order: seq<int>, parts: seq<int>, newParts: seq<int>)
    returns (st: CommanderState, sends: seq<Message>)
    requires |parts| == |order| && |newParts| == |order|
    ensures st.step == |order|
    ensures st.captured == order
    ensures st.allCiphers == parts
    ensures |sends| >= |order|
    ensures sends[|sends| - |order|..] == FinishSignals(|order|)
    ensures sends == AllStepSends(order, parts, newParts, |order|) + FinishSignals(|order|)
  {
    var n := |order|;
    st := InitCommander(order);
    sends := [];
    while st.step < n
      invariant RunState(st, order, parts, newParts, sends)
      decreases n - st.step
    {
      st, sends := CommanderRound(st, order, parts, newParts, sends);
    }
    assert order[..n] == order;
    sends := sends + FinishSignals(n);
  }

  /** One step of the loop: the state it leaves behind, and the send log
      extended by the step's sends. */
  method CommanderRound(st: CommanderState, order: seq<int>, parts: seq<int>, newParts: seq<int>, log: seq<Message>)
    returns (next: CommanderState, log': seq<Message>)
    requires RunState(st, order, parts, newParts, log) && st.step < |order|
    ensures RunState(next, order, parts, newParts, log') && next.step == st.step + 1
  {
    var s := st.step;
    next, log' := TakeStep(st, parts, newParts, log);
    PrefixExtend(order, s);
    SlotsAfterStep(st.allCiphers, parts, s, next.allCiphers);
  }

  /** Filling slot s with its part keeps the slots below s+1 filled and the
      rest zero. */
  lemma SlotsAfterStep(slots: seq<int>, parts: seq<int>, s: nat, filled: seq<int>)
    requires s < |slots| == |parts| && filled == slots[s := parts[s]]
    requires forall i :: 0 <= i < s ==> slots[i] == parts[i]
    requires forall i :: s <= i < |slots| ==> slots[i] == 0
    ensures forall i :: 0 <= i < s + 1 ==> filled[i] == parts[i]
    ensures forall i :: s + 1 <= i < |filled| ==> filled[i] == 0
  {
  }

  lemma PrefixExtend(s: seq<int>, k: nat)
    requires k < |s|
    ensures s[..k + 1] == s[..k] + [s[k]]
  {
  }

  /** One commander step with the parts received at it, appending its sends
      to the log. */
  method TakeStep(st: CommanderState, parts: seq<int>, newParts: seq<int>, log: seq<Message>)
    returns (next: CommanderState, log': seq<Message>)
    requires st.step < |st.order| && st.step < |st.allCiphers|
    requires |parts| == |st.order| && |newParts| == |st.order|
    requires st.captured == st.order[..st.step]
    requires log == AllStepSends(st.order, parts, newParts, st.step)
    ensures next.order == st.order && next.step == st.step + 1
    ensures next.captured == st.captured + [st.order[st.step]]
    ensures next.allCiphers == st.allCiphers[st.step := parts[st.step]]
    ensures log' == AllStepSends(st.order, parts, newParts, st.step + 1)
  {
    var r := StepCommander(st, parts[st.step], newParts[st.step]);
    AllStepSendsNext(st.order, parts, newParts, st.step);
    next, log' := r.next, log + r.sends;
  }

  /** The log of k+1 steps extends the log of k steps by step k's sends. */
  lemma AllStepSendsNext(order: seq<int>, parts: seq<int>, newParts: seq<int>, s: nat)
    requires s < |order| && |parts| == |order| && |newParts| == |order|
    ensures AllStepSends(order, parts, newParts, s + 1)
      == AllStepSends(order, parts, newParts, s) + StepSends(order[s], s, order[..s], parts[s], newParts[s])
  {
  }

  /** The step notices of the first k steps as the capture order dictates:
      one per step, to the city captured at it, carrying the step number. */
  function StepNotices(order: seq<int>, k: nat): (r: seq<Message>)
    requires k <= |order|
    ensures |r| == k
    ensures forall i :: 0 <= i < k ==> r[i] == Message(order[i], TagStep, i)
  {
    if k == 0 then [] else StepNotices(order, k - 1) + [Message(order[k - 1], TagStep, k - 1)]
  }

  /** Across the first k steps, the step notices (tag 0) in the log are
      exactly the notices the capture order dictates. */
  lemma {:induction false} StepNoticesFollowOrder(order: seq<int>, parts: seq<int>, newParts: seq<int>, k: nat)
    requires k <= |order| && |parts| == |order| && |newParts| == |order|
    ensures WithTag(AllStepSends(order, parts, newParts, k), TagStep) == StepNotices(order, k)
  {
    if k > 0 {
      StepNoticesFollowOrder(order, parts, newParts, k - 1);
      StepNoticeAppended(order, parts, newParts, k - 1);
    }
  }

  /** Step s adds exactly one step notice to the log, to the city captured
      at that step. */
  lemma StepNoticeAppended(order: seq<int>, parts: seq<int>, newParts: seq<int>, s: nat)
    requires s < |order| && |parts| == |order| && |newParts| == |order|
    ensures WithTag(AllStepSends(order, parts, newParts, s + 1), TagStep)
      == WithTag(AllStepSends(order, parts, newParts, s), TagStep) + [Message(order[s], TagStep, s)]
  {
    var step := StepSends(order[s], s, order[..s], parts[s], newParts[s]);
    AllStepSendsNext(order, parts, newParts, s);
    WithTagAppend(AllStepSends(order, parts, newParts, s), step, TagStep);
    StepSendsTagStep(order[s], s, order[..s], parts[s], newParts[s]);
  }

  /** The sentinel -1 on tag 100, once to every city 1..n. */
  function FinishSignals(n: nat): (r: seq<Message>)
    ensures Dests(r) == InitialOrder(n)
    ensures forall m :: m in r ==> m.tag == TagFinish && m.payload == FinishSignal
  {
    Relay(InitialOrder(n), TagFinish, FinishSignal)
  }

  /* ---------------------------------------------------------------------
     Cities
     --------------------------------------------------------------------- */

  /** A city's state: its rank, the broadcast order, its own part and the
      list of parts it holds. */
  datatype CityState = CityState(id: int, order: seq<int>, own: int, parts: seq<int>)

  /** A city after receiving the order and generating its own part. */
  function InitCity(id: int, order: seq<int>, own: int): (c: CityState)
    ensures c.parts == [c.own] && c.own == own && c.order == order && c.id == id
  {
    CityState(id, order, own, [own])
  }

  /** The tags, in order, of the blocking receives a city performs at a step
      (each received value is appended to its parts). */
  function AwaitedTags(id: int, order: seq<int>, step: nat): seq<int>
    requires step < |order|
  {
    if order[step] == id then
      seq(step, _ => TagRelay(step)) + (if step == 0 then [] else [TagSecondRelay(step)])
    else
      [TagRelay(step)] + (if id == order[0] then [] else [TagSecondRelay(step)])
  }

  /** The three ways a received step value is handled. */
  datatype CityOutcome =
    | Exit
    | StepOutOfRange
    | Proceed(city: CityState, sends: seq<Message>)

  /** A city's reaction to one received step value.  `incoming` are the
      values its receives return for this step, `generated` the part it
      generates when it is the first captured city. */
  function StepCity(c: CityState, step: int, incoming: seq<int>, generated: int): (r: CityOutcome)
    requires 0 <= step < |c.order| ==> |incoming| == |AwaitedTags(c.id, c.order, step)|
    ensures r.Exit? <==> step == FinishSignal
    ensures r.StepOutOfRange? <==> step != FinishSignal && !(0 <= step < |c.order|)
    ensures r.Proceed? ==> r.city == c.(parts := c.parts + incoming)
    ensures r.Proceed? ==> forall m :: m in r.sends ==> m.dest == CommanderRank
    ensures r.Proceed? ==> forall m :: m in r.sends ==> m.tag == TagOwnPart || m.tag == TagFirstCityPart(step)
    ensures r.Proceed? ==>
      (WithTag(r.sends, TagOwnPart) != [] <==> c.order[step] == c.id)
    ensures r.Proceed? && c.order[step] == c.id ==>
      WithTag(r.sends, TagOwnPart) == [Message(CommanderRank, TagOwnPart, c.own)]
    ensures r.Proceed? ==>
      WithTag(r.sends, TagFirstCityPart(step))
        == (if c.order[0] == c.id && (step == 0 || c.order[step] != c.id)
            then [Message(CommanderRank, TagFirstCityPart(step), generated)] else [])
  {
    if step == FinishSignal then Exit
    else if !(0 <= step < |c.order|) then StepOutOfRange
    else
      CitySendsByTag(c, step, generated);
      Proceed(c.(parts := c.parts + incoming), CitySends(c, step, generated))
  }

  /** What a city sends the commander at a step: its own part on tag 1 when
      it is the one captured; a newly generated part on tag 3+step when it
      is the first city of the order (in the captured branch only at step 0). */
  function CitySends(c: CityState, step: nat, generated: int): seq<Message>
    requires step < |c.order|
  {
    if c.order[step] == c.id then
      [Message(CommanderRank, TagOwnPart, c.own)]
        + (if step == 0 then [Message(CommanderRank, TagFirstCityPart(step), generated)] else [])
    else if c.id == c.order[0] then [Message(CommanderRank, TagFirstCityPart(step), generated)]
    else []
  }

  lemma CitySendsByTag(c: CityState, step: nat, generated: int)
    requires step < |c.order|
    ensures forall m :: m in CitySends(c, step, generated) ==> m.dest == CommanderRank
    ensures forall m :: m in CitySends(c, step, generated) ==> m.tag == TagOwnPart || m.tag == TagFirstCityPart(step)
    ensures WithTag(CitySends(c, step, generated), TagOwnPart) != [] <==> c.order[step] == c.id
    ensures c.order[step] == c.id ==>
      WithTag(CitySends(c, step, generated), TagOwnPart) == [Message(CommanderRank, TagOwnPart, c.own)]
    ensures WithTag(CitySends(c, step, generated), TagFirstCityPart(step))
      == (if c.order[0] == c.id && (step == 0 || c.order[step] != c.id)
          then [Message(CommanderRank, TagFirstCityPart(step), generated)] else [])
  {
    var own := Message(CommanderRank, TagOwnPart, c.own);
    var first := Message(CommanderRank, TagFirstCityPart(step), generated);
    WithTagSingle(own, TagOwnPart);
    WithTagSingle(own, TagFirstCityPart(step));
    WithTagSingle(first, TagOwnPart);
    WithTagSingle(first, TagFirstCityPart(step));
    WithTagAppend([own], [first], TagOwnPart);
    WithTagAppend([own], [first], TagFirstCityPart(step));
    assert [own] + [] == [own];
  }

  /** One delivery of a step value to a city, with what its receives return. */
  datatype Delivery = Delivery(step: int, incoming: seq<int>, generated: int)

  ghost predicate Fits(id: int, order: seq<int>, d: Delivery)
  {
    0 <= d.step < |order| ==> |d.incoming| == |AwaitedTags(id, order, d.step)|
  }

  /** A city's receive loop over a sequence of deliveries, stopping at the
      finish signal or at an out-of-range step. */
  function RunCity(c: CityState, ds: seq<Delivery>): CityState
    requires forall i :: 0 <= i < |ds| ==> Fits(c.id, c.order, ds[i])
    decreases |ds|
  {
    if ds == [] then c
    else
      assert Fits(c.id, c.order, ds[0]);
      match StepCity(c, ds[0].step, ds[0].incoming, ds[0].generated)
      case Proceed(c', _) => RunCity(c', ds[1..])
      case _ => c
  }

  /** A city's parts are only ever appended to: the list never shrinks and
      keeps its earlier entries, in particular the own part in front. */
  lemma {:induction false} RunCityOnlyAppends(c: CityState, ds: seq<Delivery>)
    requires forall i :: 0 <= i < |ds| ==> Fits(c.id, c.order, ds[i])
    ensures c.parts <= RunCity(c, ds).parts
    ensures RunCity(c, ds).id == c.id && RunCity(c, ds).order == c.order
    ensures RunCity(c, ds).own == c.own
    decreases |ds|
  {
    if ds != [] {
      assert Fits(c.id, c.order, ds[0]);
    }
    if ds != [] {
      match StepCity(c, ds[0].step, ds[0].incoming, ds[0].generated)
      case Proceed(c', _) =>
        assert forall i :: 0 <= i < |ds[1..]| ==> ds[1..][i] == ds[i + 1];
        RunCityOnlyAppends(c', ds[1..]);
      case _ =>
    }
  }

  /** From its initial state, a city's list starts with its own part and
      never gets shorter than one entry. */
  lemma CityKeepsOwnPartFirst(id: int, order: seq<int>, own: int, ds: seq<Delivery>)
    requires forall i :: 0 <= i < |ds| ==> Fits(id, order, ds[i])
    ensures |RunCity(InitCity(id, order, own), ds).parts| >= 1
    ensures RunCity(InitCity(id, order, own), ds).parts[0] == own
  {
    RunCityOnlyAppends(InitCity(id, order, own), ds);
  }

  /** The finish signal the commander sends ends the receive loop of every
      city, and it is not a valid step index. */
  lemma FinishSignalEndsCities(n: nat, c: CityState, m: Message, generated: int)
    requires m in FinishSignals(n)
    ensures !(0 <= m.payload < n)
    ensures StepCity(c, m.payload, [], generated) == Exit
  {
  }

  /** Cities receive their step with a wildcard tag; if a relayed cipher
      part were taken as a step, it would not index the order. */
  lemma RelayedPartIsNotAStep(c: CityState, seedHash: bv64, clockHash: bv64, generated: int)
    requires |c.order| <= MaxCities
    ensures StepCity(c, CipherPart(seedHash, clockHash), [], generated) == StepOutOfRange
  {
  }

  /** At any step after the first, the current city waits on tags 2+s and
      4+s, but the commander's sends to it at that step carry only tags 0
      and 5+s: the two sides of the relay do not meet. */
  lemma CurrentCityWaitsOnUnsentTags(st: CommanderState, n: nat, part: int, newPart: int)
    requires CommanderInv(st, n) && 0 < st.step < n
    ensures TagRelay(st.step) in AwaitedTags(st.order[st.step], st.order, st.step)
    ensures TagSecondRelay(st.step) in AwaitedTags(st.order[st.step], st.order, st.step)
    ensures forall m :: m in StepCommander(st, part, newPart).sends && m.dest == st.order[st.step] ==>
      m.tag == TagStep || m.tag == TagToCurrent(st.step)
  {
    var s := st.step;
    var current := st.order[s];
    var tags := AwaitedTags(current, st.order, s);
    assert tags[0] == TagRelay(s);
    assert tags[|tags| - 1] == TagSecondRelay(s);
    CaptureOrderIsPermutation(st.order, n);
    assert current !in st.captured;
    var relay := Relay(st.captured, TagRelay(s), part);
    var second := SecondRelay(current, s, st.captured, newPart);
    var ds := Without(st.captured, st.captured[0]);
    assert StepCommander(st, part, newPart).sends == [Message(current, TagStep, s)] + relay + second;
    forall m | m in relay
      ensures m.dest != current
    {
      RelayMember(st.captured, TagRelay(s), part, m);
    }
    forall m | m in Relay(ds, TagSecondRelay(s), newPart)
      ensures m.dest != current
    {
      RelayMember(ds, TagSecondRelay(s), newPart, m);
      WithoutSubset(st.captured, st.captured[0], m.dest);
    }
  }

  /* ---------------------------------------------------------------------
     Validation
     --------------------------------------------------------------------- */

  /** The validation a rank performs.  The commander checks the N sizes
      reported by cities 1..N (sizes[i-1] from city i); a city reports and
      checks its own size; an idle rank fails. */
  method ValidateResults(role: Role, numCities: int, sizes: seq<int>, ownSize: int) returns (ok: bool)
    requires role == Commander ==> |sizes| == numCities
    ensures role == Commander ==> (ok <==> forall i :: 0 <= i < |sizes| ==> sizes[i] == numCities)
    ensures role.CityRank? ==> (ok <==> ownSize == numCities)
    ensures role == IdleRank ==> !ok
  {
    match role
    case Commander =>
      ok := true;
      var i := 0;
      while i < |sizes| && ok
        invariant 0 <= i <= |sizes|
        invariant ok <==> forall j :: 0 <= j < i ==> sizes[j] == numCities
      {
        if sizes[i] != numCities {
          ok := false;
        }
        i := i + 1;
      }
    case CityRank(_) =>
      ok := ownSize == numCities;
    case IdleRank =>
      ok := false;
  }
}
