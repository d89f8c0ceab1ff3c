/**
 * `ThumbnailManager::request_thumbnail` and `PreviewsManager::request_previews`
 * (the same gate around two generators), run one request at a time. The
 * manager keeps the set of photo ids whose derivative is being generated; the
 * file-existence check and the generator's outcome are inputs.
 */
module Gate {
  import opened Wrappers

  /**
   * What a request does: wait while its id is in flight (with no other
   * request running, the wait never ends), or finish with a result, whether
   * the generator ran, and the in-flight set while it ran and afterwards.
   */
  datatype Step = Waiting | Served(result: bool, generated: bool, during: set<int>, after: set<int>)

  /**
   * One request for `id`. The generator runs on a blocking task; a panic there
   * makes the join fail, which counts as `false`.
   */
  function Request(inFlight: set<int>, id: int, targetExists: bool, generator: Outcome<bool>): (s: Step)
    ensures s.Waiting? <==> id in inFlight
    ensures s.Served? && targetExists ==> s.result && !s.generated && s.during == inFlight
    ensures s.Served? && !targetExists ==> s.generated && s.during == inFlight + {id}
    ensures s.Served? && !targetExists ==> s.result == (generator.Done? && generator.value)
    ensures s.Served? ==> s.after == inFlight
  {
    if id in inFlight then Waiting
    else if targetExists then Served(true, false, inFlight, inFlight)
    else
      var during := inFlight + {id};
      var result := match generator case Done(ok) => ok case Panic => false;
      assert during - {id} == inFlight;
      Served(result, true, during, during - {id})
  }

  /** While a request is served, only its own id's membership changes. */
  lemma OnlyOwnIdTouched(inFlight: set<int>, id: int, targetExists: bool, generator: Outcome<bool>, other: int)
    requires other != id && id !in inFlight
    ensures var s := Request(inFlight, id, targetExists, generator);
      (other in s.during <==> other in inFlight) && (other in s.after <==> other in inFlight)
    ensures var s := Request(inFlight, id, targetExists, generator);
      id !in s.after && (id in s.during <==> !targetExists)
  {
  }

  /** A request as the sequential runner sees it: the photo id, whether its target exists, and the generator's outcome. */
  datatype Call = Call(id: int, targetExists: bool, generator: Outcome<bool>)

  /** Running calls one after the other; `None` when one of them would wait forever. */
  function Serve(inFlight: set<int>, calls: seq<Call>): (r: Option<seq<bool>>)
    ensures r.Some? ==> |r.value| == |calls|
    ensures r.Some? <==> forall k :: 0 <= k < |calls| ==> calls[k].id !in inFlight
  {
    if |calls| == 0 then Some([])
    else
      var c := calls[0];
      match Request(inFlight, c.id, c.targetExists, c.generator)
      case Waiting => None
      case Served(result, _, _, after) =>
        assert forall k :: 1 <= k < |calls| ==> calls[k] == calls[1..][k - 1];
        match Serve(after, calls[1..])
        case None => None
        case Some(rest) => Some([result] + rest)
  }

  /**
   * Served one at a time, each request gets what its own check and generator
   * give: `true` for an existing target, the generator's result otherwise.
   */
  lemma {:induction false} SequentialResults(calls: seq<Call>)
    ensures Serve({}, calls).Some?
    ensures forall k :: 0 <= k < |calls| ==>
      Serve({}, calls).value[k] == (calls[k].targetExists || (calls[k].generator.Done? && calls[k].generator.value))
  {
    if |calls| > 0 {
      SequentialResults(calls[1..]);
      var c := calls[0];
      assert Request({}, c.id, c.targetExists, c.generator).after == {};
      forall k | 1 <= k < |calls| ensures calls[k] == calls[1..][k - 1] {}
    }
  }
}
