/**
 * The NFC polling task of the firmware: one reader per filament slot, each polled once per pass.
 * A slot's identity is the text of the tag in it ("" for an empty slot). A new or changed tag is
 * published at once; a removal is published only after NFC_MAX_READ_FAILURES consecutive passes
 * without a read, so that a tag that is briefly unreadable does not flicker to empty. During the
 * first pass every slot publishes its state once.
 *
 * Publishing to MQTT is recorded in a log of (topic, payload) pairs; LED colours and the sleep
 * between passes are not modelled.
 */
module NfcPolling {
  import opened Wrappers
  import opened Numerals
  import opened Config
  import opened NfcReader

  /** What one slot remembers between passes. */
  datatype Slot = Slot(identity: string, misses: nat)

  /** A message handed to the MQTT client. */
  datatype Publish = Publish(topic: string, payload: string)

  /** The outcome of handling one slot: its new state and the payload published for it, if any. */
  datatype Step = Step(slot: Slot, published: Option<string>)

  /** The state every slot starts in. */
  const EMPTY_SLOT := Slot("", 0)

  /** What a slot keeps true between passes: an empty slot counts no misses, and the count stays below the threshold. */
  predicate SlotInvariant(s: Slot) {
    (s.identity == "" ==> s.misses == 0) && s.misses < NFC_MAX_READ_FAILURES
  }

  /** A read counts as a tag seen when it produced a non-empty text (Python truthiness). */
  predicate Seen(detected: Option<string>) {
    detected.Some? && detected.value != ""
  }

  /** The topic of slot `i` (0-based): the base, then "/slot_" and the 1-based slot number. */
  function SlotTopic(base: string, i: nat): (t: string)
    ensures |t| == |base| + 6 + |NatToString(i + 1)|
    ensures t[..|base|] == base && t[|base|..|base| + 6] == "/slot_" && t[|base| + 6..] == NatToString(i + 1)
  {
    base + "/slot_" + NatToString(i + 1)
  }

  /** `nfc_topics`: one topic per reader. */
  function SlotTopics(base: string, count: nat): (topics: seq<string>)
    ensures |topics| == count
    ensures forall j :: 0 <= j < count ==> topics[j] == SlotTopic(base, j)
  {
    seq(count, j requires 0 <= j => SlotTopic(base, j))
  }

  /** Different slots publish on different topics. */
  lemma {:induction false} SlotTopicsDistinct(base: string, i: nat, j: nat)
    requires i != j
    ensures SlotTopic(base, i) != SlotTopic(base, j)
  {
    if SlotTopic(base, i) == SlotTopic(base, j) {
      NatToStringInjective(i + 1, j + 1);
    }
  }

  /** The handling of one slot in a pass, given the text its reader returned. */
  function Observe(s: Slot, detected: Option<string>, firstLoop: bool): (r: Step)
    ensures SlotInvariant(s) ==> SlotInvariant(r.slot)
    ensures r.published.Some? ==> r.published.value == r.slot.identity
    ensures !firstLoop ==> (r.published.Some? <==> r.slot.identity != s.identity)
    ensures firstLoop && s.identity == "" ==> r.published.Some?
    ensures Seen(detected) ==> r.slot == Slot(detected.value, 0)
    ensures !Seen(detected) ==> r.slot.identity == s.identity || r.slot == EMPTY_SLOT
  {
    if Seen(detected) then
      if detected.value != s.identity || firstLoop then Step(Slot(detected.value, 0), Some(detected.value))
      else Step(Slot(s.identity, 0), None)
    else if s.identity == "" then
      Step(s, if firstLoop then Some("") else None)
    else if s.misses + 1 >= NFC_MAX_READ_FAILURES then Step(EMPTY_SLOT, Some(""))
    else Step(Slot(s.identity, s.misses + 1), None)
  }

  // ---------------------------------------------------------------------------------------
  // One slot over several passes (after the first)

  /** The state of a slot after the given polls, one per pass, and the payloads it published. */
  function ObserveAll(s: Slot, polls: seq<Option<string>>): (Slot, seq<string>)
    decreases |polls|
  {
    if polls == [] then (s, [])
    else
      var step := Observe(s, polls[0], false);
      var (last, payloads) := ObserveAll(step.slot, polls[1..]);
      (last, (if step.published.Some? then [step.published.value] else []) + payloads)
  }

  function Misses(m: nat): (r: seq<Option<string>>)
    ensures |r| == m && forall k :: 0 <= k < m ==> r[k] == None
  {
    seq(m, _ => None)
  }

  /** Misses below the threshold leave an occupied slot as it is and publish nothing. */
  lemma {:induction false} MissesAccumulate(id: string, c: nat, m: nat)
    requires id != "" && c + m < NFC_MAX_READ_FAILURES
    ensures ObserveAll(Slot(id, c), Misses(m)) == (Slot(id, c + m), [])
    decreases m
  {
    var polls := Misses(m);
    if m > 0 {
      assert polls[1..] == Misses(m - 1);
      MissesAccumulate(id, c + 1, m - 1);
      var step := Observe(Slot(id, c), polls[0], false);
      assert step == Step(Slot(id, c + 1), None);
      var nothing: seq<string> := [];
      assert ObserveAll(Slot(id, c), polls) == (Slot(id, c + m), nothing + nothing);
      assert nothing + nothing == nothing;
    } else {
      assert polls == [];
    }
  }

  /**
   * Debounced removal: a tag that stops being read keeps its identity for NFC_MAX_READ_FAILURES - 1
   * passes, and the next miss empties the slot with exactly one "" publish.
   */
  lemma {:induction false} RemovalConfirmedAfterThreshold(id: string)
    requires id != ""
    ensures forall m :: 0 <= m < NFC_MAX_READ_FAILURES ==> ObserveAll(Slot(id, 0), Misses(m)) == (Slot(id, m), [])
    ensures ObserveAll(Slot(id, 0), Misses(NFC_MAX_READ_FAILURES)) == (EMPTY_SLOT, [""])
  {
    forall m | 0 <= m < NFC_MAX_READ_FAILURES
      ensures ObserveAll(Slot(id, 0), Misses(m)) == (Slot(id, m), [])
    {
      MissesAccumulate(id, 0, m);
    }
    var n := NFC_MAX_READ_FAILURES;
    var polls := Misses(n);
    assert polls == Misses(n - 1) + [None];
    ObserveAllAppend(Slot(id, 0), Misses(n - 1), None);
    MissesAccumulate(id, 0, n - 1);
    assert Observe(Slot(id, n - 1), None, false) == Step(EMPTY_SLOT, Some(""));
    assert ObserveAll(Slot(id, 0), polls) == (EMPTY_SLOT, [] + [""]);
    var nothing: seq<string> := [];
    assert nothing + [""] == [""];
  }

  /** Appending one more pass to a run of passes. */
  lemma {:induction false} ObserveAllAppend(s: Slot, polls: seq<Option<string>>, last: Option<string>)
    ensures var (mid, payloads) := ObserveAll(s, polls);
            var step := Observe(mid, last, false);
            ObserveAll(s, polls + [last])
              == (step.slot, payloads + (if step.published.Some? then [step.published.value] else []))
    decreases |polls|
  {
    if polls == [] {
      var step := Observe(s, last, false);
      var out := if step.published.Some? then [step.published.value] else [];
      assert [last][1..] == [];
      assert ObserveAll(s, [last]) == (step.slot, out + []);
      assert out + [] == [] + out;
    } else {
      var first := Observe(s, polls[0], false);
      var head := if first.published.Some? then [first.published.value] else [];
      assert (polls + [last])[0] == polls[0];
      assert (polls + [last])[1..] == polls[1..] + [last];
      ObserveAllAppend(first.slot, polls[1..], last);
      var (mid, rest) := ObserveAll(first.slot, polls[1..]);
      var step := Observe(mid, last, false);
      var tail := if step.published.Some? then [step.published.value] else [];
      assert ObserveAll(s, polls) == (mid, head + rest);
      assert ObserveAll(s, polls + [last]) == (step.slot, head + (rest + tail));
      assert head + (rest + tail) == (head + rest) + tail;
    }
  }

  /** Reading the tag again before the threshold cancels the pending removal, silently. */
  lemma {:induction false} ReadAgainCancelsRemoval(id: string, m: nat)
    requires id != "" && m < NFC_MAX_READ_FAILURES
    ensures ObserveAll(Slot(id, 0), Misses(m) + [Some(id)]) == (Slot(id, 0), [])
  {
    MissesAccumulate(id, 0, m);
    ObserveAllAppend(Slot(id, 0), Misses(m), Some(id));
    assert Observe(Slot(id, m), Some(id), false) == Step(Slot(id, 0), None);
    assert ObserveAll(Slot(id, 0), Misses(m) + [Some(id)]) == (Slot(id, 0), [] + []);
    var nothing: seq<string> := [];
    assert nothing + nothing == nothing;
  }

  /** Swapping tag A for tag B between two passes publishes B with no "" in between. */
  lemma {:induction false} SwapPublishesNewTagOnly(a: string, b: string, c: nat)
    requires a != "" && b != "" && a != b
    ensures ObserveAll(Slot(a, c), [Some(b)]) == (Slot(b, 0), [b])
  {
    assert [Some(b)][1..] == [];
    assert [b] + [] == [b];
  }

  // ---------------------------------------------------------------------------------------
  // A whole pass

  /** The slots after a pass: each slot handled on its own read. */
  function PassSlots(slots: seq<Slot>, detected: seq<Option<string>>, firstLoop: bool): (r: seq<Slot>)
    requires |detected| == |slots|
    ensures |r| == |slots|
    ensures forall j :: 0 <= j < |slots| ==> r[j] == Observe(slots[j], detected[j], firstLoop).slot
  {
    seq(|slots|, j requires 0 <= j < |slots| => Observe(slots[j], detected[j], firstLoop).slot)
  }

  function PublishOf(topic: string, payload: Option<string>): seq<Publish> {
    if payload.Some? then [Publish(topic, payload.value)] else []
  }

  /** What the first `n` slots of a pass publish, in slot order. */
  function PassLog(slots: seq<Slot>, detected: seq<Option<string>>, firstLoop: bool, topics: seq<string>, n: nat): (log: seq<Publish>)
    requires n <= |slots| == |detected| == |topics|
    ensures |log| <= n
  {
    if n == 0 then []
    else
      PassLog(slots, detected, firstLoop, topics, n - 1)
        + PublishOf(topics[n - 1], Observe(slots[n - 1], detected[n - 1], firstLoop).published)
  }

  /** What the slots from `i` on publish, appended to `acc`. */
  function PassLogFrom(slots: seq<Slot>, detected: seq<Option<string>>, firstLoop: bool, topics: seq<string>, i: nat, acc: seq<Publish>): seq<Publish>
    requires i <= |slots| == |detected| == |topics|
    decreases |slots| - i
  {
    if i == |slots| then acc
    else PassLogFrom(slots, detected, firstLoop, topics, i + 1,
                     acc + PublishOf(topics[i], Observe(slots[i], detected[i], firstLoop).published))
  }

  lemma {:induction false} PassLogFromPrefix(slots: seq<Slot>, detected: seq<Option<string>>, firstLoop: bool, topics: seq<string>, i: nat, acc: seq<Publish>)
    requires i <= |slots| == |detected| == |topics|
    ensures PassLogFrom(slots, detected, firstLoop, topics, i, acc + PassLog(slots, detected, firstLoop, topics, i))
            == acc + PassLog(slots, detected, firstLoop, topics, |slots|)
    decreases |slots| - i
  {
    if i < |slots| {
      var prev := PassLog(slots, detected, firstLoop, topics, i);
      var out := PublishOf(topics[i], Observe(slots[i], detected[i], firstLoop).published);
      assert acc + prev + out == acc + PassLog(slots, detected, firstLoop, topics, i + 1);
      PassLogFromPrefix(slots, detected, firstLoop, topics, i + 1, acc);
    }
  }

  lemma {:induction false} PassLogFromStart(slots: seq<Slot>, detected: seq<Option<string>>, firstLoop: bool, topics: seq<string>, acc: seq<Publish>)
    requires |slots| == |detected| == |topics|
    ensures PassLogFrom(slots, detected, firstLoop, topics, 0, acc) == acc + PassLog(slots, detected, firstLoop, topics, |slots|)
  {
    assert acc + PassLog(slots, detected, firstLoop, topics, 0) == acc;
    PassLogFromPrefix(slots, detected, firstLoop, topics, 0, acc);
  }

  /** A pass only publishes on the topics of the slots handled so far. */
  lemma {:induction false} PassLogTopics(slots: seq<Slot>, detected: seq<Option<string>>, firstLoop: bool, topics: seq<string>, n: nat)
    requires n <= |slots| == |detected| == |topics|
    ensures forall k :: 0 <= k < |PassLog(slots, detected, firstLoop, topics, n)| ==>
              PassLog(slots, detected, firstLoop, topics, n)[k].topic in topics[..n]
  {
    if n > 0 {
      PassLogTopics(slots, detected, firstLoop, topics, n - 1);
      var prev := PassLog(slots, detected, firstLoop, topics, n - 1);
      var log := PassLog(slots, detected, firstLoop, topics, n);
      forall k | 0 <= k < |log|
        ensures log[k].topic in topics[..n]
      {
        if k < |prev| {
          assert log[k] == prev[k] && prev[k].topic in topics[..n - 1];
        }
      }
    }
  }

  /** No topic occurs twice in a log. */
  predicate TopicsOnce(log: seq<Publish>) {
    forall k, l :: 0 <= k < l < |log| ==> log[k].topic != log[l].topic
  }

  predicate Distinct(topics: seq<string>) {
    forall i, j :: 0 <= i < j < |topics| ==> topics[i] != topics[j]
  }

  /** With distinct topics, a pass publishes at most once per slot. */
  lemma {:induction false} PassLogTopicsOnce(slots: seq<Slot>, detected: seq<Option<string>>, firstLoop: bool, topics: seq<string>, n: nat)
    requires n <= |slots| == |detected| == |topics| && Distinct(topics)
    ensures TopicsOnce(PassLog(slots, detected, firstLoop, topics, n))
  {
    if n > 0 {
      PassLogTopicsOnce(slots, detected, firstLoop, topics, n - 1);
      PassLogTopics(slots, detected, firstLoop, topics, n - 1);
      var prev := PassLog(slots, detected, firstLoop, topics, n - 1);
      var last := PublishOf(topics[n - 1], Observe(slots[n - 1], detected[n - 1], firstLoop).published);
      assert topics[n - 1] !in topics[..n - 1];
      var log: seq<Publish> := prev + last;
      forall k, l | 0 <= k < l < |log|
        ensures log[k].topic != log[l].topic
      {
        if l >= |prev| {
          assert log[l] == last[0] && last[0].topic == topics[n - 1];
          assert log[k] == prev[k] && prev[k].topic in topics[..n - 1];
        } else {
          assert log[k] == prev[k] && log[l] == prev[l];
        }
      }
    }
  }

  /** With distinct topics, slot `j`'s topic carries `p` in a pass exactly when handling slot `j` produced `p`. */
  lemma {:induction false} PassLogPerSlot(slots: seq<Slot>, detected: seq<Option<string>>, firstLoop: bool, topics: seq<string>, n: nat)
    requires n <= |slots| == |detected| == |topics| && Distinct(topics)
    ensures forall j, p :: 0 <= j < n ==>
              (Publish(topics[j], p) in PassLog(slots, detected, firstLoop, topics, n) <==>
               Observe(slots[j], detected[j], firstLoop).published == Some(p))
  {
    if n > 0 {
      PassLogPerSlot(slots, detected, firstLoop, topics, n - 1);
      PassLogTopics(slots, detected, firstLoop, topics, n - 1);
      var prev := PassLog(slots, detected, firstLoop, topics, n - 1);
      var last := PublishOf(topics[n - 1], Observe(slots[n - 1], detected[n - 1], firstLoop).published);
      assert PassLog(slots, detected, firstLoop, topics, n) == prev + last;
      forall j, p | 0 <= j < n
        ensures Publish(topics[j], p) in prev + last <==> Observe(slots[j], detected[j], firstLoop).published == Some(p)
      {
        if j < n - 1 {
          assert topics[j] != topics[n - 1];
          if Publish(topics[j], p) in prev {
          } else {
            assert Publish(topics[j], p) !in last;
          }
        } else {
          assert Publish(topics[j], p) !in prev by {
            assert topics[n - 1] !in topics[..n - 1];
          }
        }
      }
    }
  }

  /** In the first pass every slot that starts empty publishes exactly once. */
  lemma {:induction false} FirstPassPublishesEverySlot(slots: seq<Slot>, detected: seq<Option<string>>, topics: seq<string>)
    requires |slots| == |detected| == |topics| && Distinct(topics)
    requires forall j :: 0 <= j < |slots| ==> slots[j] == EMPTY_SLOT
    ensures |PassLog(slots, detected, true, topics, |slots|)| == |slots|
    ensures forall j :: 0 <= j < |slots| ==>
              Publish(topics[j], if Seen(detected[j]) then detected[j].value else "") in PassLog(slots, detected, true, topics, |slots|)
  {
    PassLogPerSlot(slots, detected, true, topics, |slots|);
    FirstPassLength(slots, detected, topics, |slots|);
  }

  lemma {:induction false} FirstPassLength(slots: seq<Slot>, detected: seq<Option<string>>, topics: seq<string>, n: nat)
    requires n <= |slots| == |detected| == |topics|
    requires forall j :: 0 <= j < |slots| ==> slots[j] == EMPTY_SLOT
    ensures |PassLog(slots, detected, true, topics, n)| == n
  {
    if n > 0 {
      FirstPassLength(slots, detected, topics, n - 1);
    }
  }

  /** The per-slot state of `task_nfc_loop`, kept across passes. */
  class SlotPoller {
    /** `current_slot_states` */
    const identities: array<string>
    /** `slot_miss_counters` */
    const missCounts: array<nat>
    /** `nfc_topics` */
    const topics: seq<string>
    /** `is_first_loop` */
    var isFirstLoop: bool
    /** Every message published so far. */
    var published: seq<Publish>

    ghost predicate Valid()
      reads this, identities, missCounts
    {
      && identities.Length == missCounts.Length == |topics|
      && Distinct(topics)
      && forall j :: 0 <= j < identities.Length ==> SlotInvariant(Slot(identities[j], missCounts[j]))
    }

    /** The slots' state as a sequence. */
    function Slots(): (r: seq<Slot>)
      reads this, identities, missCounts
      requires identities.Length == missCounts.Length
      ensures |r| == identities.Length
      ensures forall j :: 0 <= j < |r| ==> r[j] == Slot(identities[j], missCounts[j])
    {
      seq(identities.Length, j requires 0 <= j < identities.Length reads identities, missCounts =>
        Slot(identities[j], missCounts[j]))
    }

    /** The set-up of `task_nfc_loop`: every slot empty, the first-pass flag set, one topic per slot. */
    constructor (readerCount: nat, topicBase: string)
      ensures Valid()
      ensures identities.Length == readerCount && fresh(identities) && fresh(missCounts)
      ensures forall j :: 0 <= j < readerCount ==> Slots()[j] == EMPTY_SLOT
      ensures topics == SlotTopics(topicBase, readerCount)
      ensures isFirstLoop && published == []
    {
      identities := new string[readerCount](_ => "");
      missCounts := new nat[readerCount](_ => 0);
      topics := SlotTopics(topicBase, readerCount);
      isFirstLoop := true;
      published := [];
      new;
      forall i, j | 0 <= i < j < readerCount
        ensures topics[i] != topics[j]
      {
        SlotTopicsDistinct(topicBase, i, j);
      }
    }

    /** The body of the polling loop for slot `i`, whose reader holds `session`. */
    method PollSlot(i: nat, session: TagSession, decode: RecordDecoder)
      requires i < identities.Length == missCounts.Length == |topics|
      modifies this`published, identities, missCounts
      ensures var step := Observe(old(Slot(identities[i], missCounts[i])), TagText(session, decode), isFirstLoop);
              && Slot(identities[i], missCounts[i]) == step.slot
              && published == old(published) + PublishOf(topics[i], step.published)
      ensures forall j :: 0 <= j < identities.Length && j != i ==>
                identities[j] == old(identities[j]) && missCounts[j] == old(missCounts[j])
    {
      var detectedText, _ := ReadTagText(session, decode);
      if detectedText.Some? && detectedText.value != "" {
        if detectedText.value != identities[i] || isFirstLoop {
          identities[i] := detectedText.value;
          missCounts[i] := 0;
          published := published + [Publish(topics[i], detectedText.value)];
        } else {
          missCounts[i] := 0;
        }
      } else {
        if identities[i] == "" {
          if isFirstLoop {
            published := published + [Publish(topics[i], "")];
          }
        } else {
          missCounts[i] := missCounts[i] + 1;
          if missCounts[i] >= NFC_MAX_READ_FAILURES {
            identities[i] := "";
            missCounts[i] := 0;
            published := published + [Publish(topics[i], "")];
          }
        }
      }
    }

    /** The `for` loop over the slots of one pass. */
    method PollSlots(sessions: seq<TagSession>, decode: RecordDecoder)
      requires identities.Length == missCounts.Length == |topics| == |sessions|
      modifies this`published, identities, missCounts
      ensures Slots() == PassSlots(old(Slots()), Detections(sessions, decode), isFirstLoop)
      ensures published == old(published) + PassLog(old(Slots()), Detections(sessions, decode), isFirstLoop, topics, |sessions|)
    {
      ghost var slots0 := Slots();
      ghost var log0 := published;
      ghost var detected := Detections(sessions, decode);
      var n := identities.Length;
      for i := 0 to n
        invariant forall j :: 0 <= j < i ==> Slot(identities[j], missCounts[j]) == Observe(slots0[j], detected[j], isFirstLoop).slot
        invariant forall j :: i <= j < n ==> Slot(identities[j], missCounts[j]) == slots0[j]
        invariant PassLogFrom(slots0, detected, isFirstLoop, topics, i, published)
                  == PassLogFrom(slots0, detected, isFirstLoop, topics, 0, log0)
      {
        assert TagText(sessions[i], decode) == detected[i];
        PollSlot(i, sessions[i], decode);
      }
      PassLogFromStart(slots0, detected, isFirstLoop, topics, log0);
      SameSlots(Slots(), PassSlots(slots0, detected, isFirstLoop));
    }

    /**
     * One pass of the polling loop: reads every slot in ascending order, updates its identity and
     * miss count, publishes what changed, and clears the first-pass flag.
     */
    method PollPass(sessions: seq<TagSession>, decode: RecordDecoder)
      requires Valid() && |sessions| == identities.Length
      modifies this, identities, missCounts
      ensures Valid() && !isFirstLoop
      ensures Slots() == PassSlots(old(Slots()), Detections(sessions, decode), old(isFirstLoop))
      ensures published == old(published) + PassLog(old(Slots()), Detections(sessions, decode), old(isFirstLoop), topics, |sessions|)
    {
      PollSlots(sessions, decode);
      if isFirstLoop {
        isFirstLoop := false;
      }
    }
  }

  lemma {:induction false} SameSlots(a: seq<Slot>, b: seq<Slot>)
    requires |a| == |b| && forall j :: 0 <= j < |a| ==> a[j] == b[j]
    ensures a == b
  {
  }

  /** The text each reader returns in a pass. */
  function Detections(sessions: seq<TagSession>, decode: RecordDecoder): (d: seq<Option<string>>)
    ensures |d| == |sessions|
    ensures forall j :: 0 <= j < |sessions| ==> d[j] == TagText(sessions[j], decode)
  {
    seq(|sessions|, j requires 0 <= j < |sessions| => TagText(sessions[j], decode))
  }
}
