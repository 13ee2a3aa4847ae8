/**
 * The delivery queue of the main page: `translationQueue` (an array of `{id, promise}`),
 * the `nextId` counter, and the `translatedSubtitles` buffer, with `enqueueTranscription`,
 * the settling of each promise, and `processQueue` as one sequential drainer.
 */
module DeliveryQueue {
  import opened Optional
  import opened JsString
  import opened Http
  import opened Subtitles
  import SubsirlRoute

  /**
   * How a queued promise settled. `Fulfilled(None)` is a value without a string
   * `translation` member (such as `undefined`), on which `result.translation.trim()` throws.
   */
  datatype Settlement = Fulfilled(translation: Option<string>) | Rejected

  /** One `{id, promise}` element; `settled` is `None` while the promise is pending. */
  datatype Entry = Entry(id: nat, settled: Option<Settlement>)

  /** The ids `0, 1, ..., n - 1` in order: every value the counter has handed out. */
  function Upto(n: nat): (r: seq<nat>)
    ensures |r| == n && forall i :: 0 <= i < n ==> r[i] == i
  {
    if n == 0 then [] else Upto(n - 1) + [n - 1]
  }

  function IdsOf(es: seq<Entry>): seq<nat> {
    seq(|es|, i requires 0 <= i < |es| => es[i].id)
  }

  predicate AllSettled(es: seq<Entry>) {
    forall i :: 0 <= i < |es| ==> es[i].settled.Some?
  }

  /** The length of the longest run of settled entries at the front of `es`. */
  function SettledPrefix(es: seq<Entry>): (n: nat)
    ensures n <= |es| && AllSettled(es[..n])
    ensures n == |es| || es[n].settled.None?
  {
    if es == [] || es[0].settled.None? then 0
    else
      var m := SettledPrefix(es[1..]);
      assert AllSettled(es[..1 + m]) by {
        forall i | 1 <= i < 1 + m ensures es[i].settled.Some? {
          assert es[1..][..m][i - 1] == es[i];
        }
      }
      1 + m
  }

  /** A settled front run that stops at a pending entry, or at the end, is the longest one. */
  lemma SettledPrefixUnique(es: seq<Entry>, n: nat)
    requires n <= |es| && AllSettled(es[..n])
    requires n == |es| || es[n].settled.None?
    ensures n == SettledPrefix(es)
  {
    var k := SettledPrefix(es);
    forall i | 0 <= i < k ensures es[i].settled.Some? {
      assert es[..k][i] == es[i];
    }
    forall i | 0 <= i < n ensures es[i].settled.Some? {
      assert es[..n][i] == es[i];
    }
  }

  /**
   * The queue's numbering invariant: the ids already shifted off are `0 .. |removed| - 1`
   * in order, the queued ones continue that run, and the counter is the next id after both.
   */
  ghost predicate Numbered(removed: seq<nat>, entries: seq<Entry>, nextId: nat) {
    && removed == Upto(|removed|)
    && nextId == |removed| + |entries|
    && forall i :: 0 <= i < |entries| ==> entries[i].id == |removed| + i
  }

  predicate StrictlyIncreasing(ids: seq<nat>) {
    forall i, j :: 0 <= i < j < |ids| ==> ids[i] < ids[j]
  }

  /**
   * Under the numbering invariant, the removed ids followed by the queued ids are exactly the
   * counter's history `0 .. nextId - 1`: ids are unique and increase in enqueue order, the
   * removed ids are a prefix of that history, and every removed id is below every queued one.
   */
  lemma NumberedIsCounterHistory(removed: seq<nat>, entries: seq<Entry>, nextId: nat)
    requires Numbered(removed, entries, nextId)
    ensures removed + IdsOf(entries) == Upto(nextId)
    ensures StrictlyIncreasing(removed + IdsOf(entries))
    ensures removed == Upto(nextId)[..|removed|]
    ensures forall i, j :: 0 <= i < |removed| && 0 <= j < |entries| ==> removed[i] < entries[j].id
  {
    var all := removed + IdsOf(entries);
    forall k | 0 <= k < nextId ensures all[k] == Upto(nextId)[k] {
      if k >= |removed| {
        assert all[k] == entries[k - |removed|].id;
      }
    }
  }

  /**
   * What one activation of `processQueue` does to the buffer once the head promise has
   * settled: a fulfilled value's non-blank `translation` is appended; a rejection, or a value
   * whose `translation` is not a string (the `TypeError` is caught), leaves it alone.
   */
  function HeadEffect(buffer: string, s: Settlement): (r: string)
    ensures buffer <= r
    ensures r != buffer <==> s.Fulfilled? && s.translation.Some? && !IsBlank(s.translation.value)
    ensures r != buffer ==> r == buffer + " " + s.translation.value
  {
    match s
    case Fulfilled(Some(t)) => AppendSubtitle(buffer, t)
    case _ => buffer
  }

  /** The buffer after the drainer has processed the settled entries `es`, front to back. */
  function Effects(buffer: string, es: seq<Entry>): string
    requires AllSettled(es)
  {
    if es == [] then buffer
    else HeadEffect(Effects(buffer, es[..|es| - 1]), es[|es| - 1].settled.value)
  }

  /** The text one settled entry contributes: a space and its translation when that is a non-blank string. */
  function Piece(s: Settlement): string {
    if s.Fulfilled? && s.translation.Some? && !IsBlank(s.translation.value) then " " + s.translation.value else ""
  }

  lemma HeadEffectIsPiece(buffer: string, s: Settlement)
    ensures HeadEffect(buffer, s) == buffer + Piece(s)
  {
  }

  /** The text the drainer adds for `es`: the pieces of the entries, in queue order. */
  function Appended(es: seq<Entry>): string
    requires AllSettled(es)
  {
    if es == [] then "" else Appended(es[..|es| - 1]) + Piece(es[|es| - 1].settled.value)
  }

  /** Draining only appends, and what it appends is the entries' translations in queue order. */
  lemma {:induction false} EffectsAppendInQueueOrder(buffer: string, es: seq<Entry>)
    requires AllSettled(es)
    ensures Effects(buffer, es) == buffer + Appended(es)
    decreases |es|
  {
    if es != [] {
      var init := es[..|es| - 1];
      assert AllSettled(init) by {
        forall i | 0 <= i < |init| ensures init[i].settled.Some? { assert init[i] == es[i]; }
      }
      EffectsAppendInQueueOrder(buffer, init);
      var s := es[|es| - 1].settled.value;
      var before := Effects(buffer, init);
      assert Effects(buffer, es) == HeadEffect(before, s);
      assert Appended(es) == Appended(init) + Piece(s);
      HeadEffectIsPiece(before, s);
      assert (buffer + Appended(init)) + Piece(s) == buffer + (Appended(init) + Piece(s));
    }
  }

  /**
   * `getTranscribe` catches everything and resolves to `undefined`, so every entry of the main
   * page settles as `Fulfilled(None)`: on such entries the drainer appends nothing at all.
   */
  lemma {:induction false} UndefinedResultsAppendNothing(buffer: string, es: seq<Entry>)
    requires forall i :: 0 <= i < |es| ==> es[i].settled == Some(Fulfilled(None))
    ensures AllSettled(es) && Effects(buffer, es) == buffer
    decreases |es|
  {
    if es != [] {
      var init := es[..|es| - 1];
      assert forall i :: 0 <= i < |init| ==> init[i].settled == Some(Fulfilled(None)) by {
        forall i | 0 <= i < |init| ensures init[i].settled == Some(Fulfilled(None)) { assert init[i] == es[i]; }
      }
      UndefinedResultsAppendNothing(buffer, init);
    }
  }

  /**
   * The main page's `getTranscribe` posts to the transcription route, whose answers carry a
   * `transcript` or an `error` member but never `translation`: the append it guards never runs.
   */
  lemma TranscriptionRouteGivesNoTranslation(verb: string, form: FormRead<SubsirlRoute.AudioForm>,
                                             recognition: SubsirlRoute.Recognition, buffer: string)
    ensures ApplyReply(buffer, ReadField(SubsirlRoute.Post(verb, form, recognition).response, "translation")) == buffer
  {
    var h := SubsirlRoute.Post(verb, form, recognition);
    assert h.response.body.Json? ==> h.response.body.key in {"error", "transcript"};
  }

  /**
   * What the main page's `getTranscribe` evidently should resolve to, so that `processQueue`
   * does the appending: the member it read, and a rejection when the request failed.
   */
  function IntendedSettlement(reply: FieldReply): Settlement {
    match reply
    case Field(v) => Fulfilled(v)
    case _ => Rejected
  }

  /** The buffer after applying `replies` one after the other, first to last. */
  function ApplyAll(buffer: string, replies: seq<FieldReply>): string {
    if replies == [] then buffer else ApplyReply(ApplyAll(buffer, replies[..|replies| - 1]), replies[|replies| - 1])
  }

  /**
   * With `getTranscribe` resolving to its reply, draining the queue applies the replies in
   * enqueue order, whatever order their requests completed in.
   */
  lemma {:induction false} IntendedDeliveryInOrder(buffer: string, es: seq<Entry>, replies: seq<FieldReply>)
    requires |es| == |replies|
    requires forall i :: 0 <= i < |es| ==> es[i].settled == Some(IntendedSettlement(replies[i]))
    ensures AllSettled(es) && Effects(buffer, es) == ApplyAll(buffer, replies)
    decreases |es|
  {
    if es != [] {
      var n := |es| - 1;
      var init := es[..n];
      assert forall i :: 0 <= i < |init| ==> init[i].settled == Some(IntendedSettlement(replies[..n][i])) by {
        forall i | 0 <= i < |init| ensures init[i].settled == Some(IntendedSettlement(replies[..n][i])) {
          assert init[i] == es[i] && replies[..n][i] == replies[i];
        }
      }
      IntendedDeliveryInOrder(buffer, init, replies[..n]);
      assert HeadEffect(Effects(buffer, init), es[n].settled.value) == ApplyReply(ApplyAll(buffer, replies[..n]), replies[n]);
    }
  }

  /**
   * The main page's queue state. `removed` records, for the proofs only, the ids that
   * `shift` has taken off the front, in order.
   */
  class TranslationQueue {
    var entries: seq<Entry>
    var nextId: nat
    var subtitles: string
    ghost var removed: seq<nat>

    ghost predicate Valid()
      reads this
    {
      Numbered(removed, entries, nextId)
    }

    /** `useRef([])`, `useRef(0)` and `useState("")`. */
    constructor ()
      ensures Valid()
      ensures entries == [] && nextId == 0 && subtitles == "" && removed == []
    {
      entries := [];
      nextId := 0;
      subtitles := "";
      removed := [];
    }

    /**
     * `enqueueTranscription`: takes the counter's value as the id, bumps the counter by one,
     * and pushes a pending entry at the back; nothing already queued changes.
     */
    method Enqueue() returns (id: nat)
      requires Valid()
      modifies this
      ensures Valid()
      ensures id == old(nextId) && nextId == old(nextId) + 1
      ensures entries == old(entries) + [Entry(id, None)]
      ensures subtitles == old(subtitles) && removed == old(removed)
    {
      id := nextId;
      nextId := nextId + 1;
      entries := entries + [Entry(id, None)];
    }

    /**
     * The promise of entry `id` settles (an event the runtime delivers, in any order).
     * A promise settles at most once; ids that are not queued are ignored.
     */
    method Settle(id: nat, s: Settlement)
      requires Valid()
      modifies this
      ensures Valid()
      ensures |entries| == |old(entries)|
      ensures forall i :: 0 <= i < |entries| ==>
        entries[i] == if old(entries)[i].id == id && old(entries)[i].settled.None? then Entry(id, Some(s)) else old(entries)[i]
      ensures nextId == old(nextId) && subtitles == old(subtitles) && removed == old(removed)
    {
      var first := nextId - |entries|;
      if first <= id < nextId {
        var i := id - first;
        if entries[i].settled.None? {
          entries := entries[i := Entry(id, Some(s))];
        }
      }
    }

    /**
     * Completion of the main page's `getTranscribe` for entry `id`: it appends the reply's
     * `translation` itself, in completion order, and its promise resolves to `undefined`.
     */
    method CompleteTranscription(id: nat, reply: FieldReply)
      requires Valid()
      modifies this
      ensures Valid()
      ensures subtitles == ApplyReply(old(subtitles), reply)
      ensures |entries| == |old(entries)|
      ensures forall i :: 0 <= i < |entries| ==>
        entries[i] == if old(entries)[i].id == id && old(entries)[i].settled.None? then Entry(id, Some(Fulfilled(None))) else old(entries)[i]
      ensures nextId == old(nextId) && removed == old(removed)
    {
      subtitles := ApplyReply(subtitles, reply);
      Settle(id, Fulfilled(None));
    }

    /**
     * One activation of `processQueue`: on an empty queue, or while the head is still pending
     * (suspended at `await`), nothing changes; otherwise the head's result is applied and the
     * head is shifted off, whether its promise fulfilled or rejected.
     */
    method DrainStep() returns (shifted: bool)
      requires Valid()
      modifies this
      ensures Valid()
      ensures shifted <==> old(entries) != [] && old(entries)[0].settled.Some?
      ensures shifted ==> entries == old(entries)[1..] && removed == old(removed) + [old(entries)[0].id]
      ensures shifted ==> subtitles == HeadEffect(old(subtitles), old(entries)[0].settled.value)
      ensures !shifted ==> entries == old(entries) && removed == old(removed) && subtitles == old(subtitles)
      ensures nextId == old(nextId)
    {
      if entries == [] {
        return false;
      }
      var head := entries[0];
      if head.settled.None? {
        return false;
      }
      subtitles := HeadEffect(subtitles, head.settled.value);
      entries := entries[1..];
      removed := removed + [head.id];
      assert Upto(|removed|) == Upto(|removed| - 1) + [|removed| - 1];
      shifted := true;
    }

    /**
     * `processQueue` calling itself from `finally`: activations repeat while the head has
     * settled. The settled prefix of the queue is processed in order and removed, and the
     * queue is left empty or with a pending head.
     */
    method Drain() returns (delivered: nat)
      requires Valid()
      modifies this
      ensures Valid()
      ensures delivered <= |old(entries)| && entries == old(entries)[delivered..]
      ensures AllSettled(old(entries)[..delivered])
      ensures entries == [] || entries[0].settled.None?
      ensures delivered == SettledPrefix(old(entries))
      ensures subtitles == Effects(old(subtitles), old(entries)[..delivered])
      ensures removed == old(removed) + IdsOf(old(entries)[..delivered])
      ensures nextId == old(nextId)
    {
      delivered := 0;
      var more := true;
      while more
        invariant Valid()
        invariant delivered <= |old(entries)| && entries == old(entries)[delivered..]
        invariant AllSettled(old(entries)[..delivered])
        invariant subtitles == Effects(old(subtitles), old(entries)[..delivered])
        invariant removed == old(removed) + IdsOf(old(entries)[..delivered])
        invariant nextId == old(nextId)
        invariant !more ==> entries == [] || entries[0].settled.None?
        decreases |entries| + (if more then 1 else 0)
      {
        ghost var done := old(entries)[..delivered];
        more := DrainStep();
        if more {
          ghost var next := old(entries)[..delivered + 1];
          assert next == done + [old(entries)[delivered]];
          assert next[..delivered] == done;
          assert IdsOf(next) == IdsOf(done) + [old(entries)[delivered].id];
          delivered := delivered + 1;
        }
      }
      SettledPrefixUnique(old(entries), delivered);
    }
  }

  /** Two settled entries are drained into the buffer front first. */
  lemma TwoDrainedInOrder(zero: Entry, one: Entry, first: string, second: string)
    requires zero.settled == Some(Fulfilled(Some(first))) && one.settled == Some(Fulfilled(Some(second)))
    ensures AllSettled([zero, one])
    ensures Effects("", [zero, one]) == AppendSubtitle(AppendSubtitle("", first), second)
  {
    assert [zero, one][..1] == [zero];
    assert Effects("", [zero]) == AppendSubtitle("", first);
  }

  /**
   * Two utterances whose promises settle out of order: the later one waits behind the
   * pending head, and both reach the buffer front first, in enqueue order.
   */
  method OutOfOrderSettlement(first: string, second: string) returns (early: nat, late: nat, subtitles: string)
    ensures early == 0 && late == 2
    ensures subtitles == AppendSubtitle(AppendSubtitle("", first), second)
  {
    var q := new TranslationQueue();
    var a := q.Enqueue();
    var b := q.Enqueue();
    var one := Entry(1, Some(Fulfilled(Some(second))));
    q.Settle(b, Fulfilled(Some(second)));
    assert q.entries == [Entry(0, None), one];
    early := q.Drain();
    assert q.subtitles == "" && q.entries == [Entry(0, None), one];
    var zero := Entry(0, Some(Fulfilled(Some(first))));
    q.Settle(a, Fulfilled(Some(first)));
    assert q.entries == [zero, one];
    late := q.Drain();
    TwoDrainedInOrder(zero, one, first, second);
    subtitles := q.subtitles;
  }
}
