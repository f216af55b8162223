/**
 * The backend half of the destroy-and-recreate node: a pass-through that
 * remembers a hash of its last input and, when the input changes between
 * runs, sends a `goddesslabs.reload_node` event naming the node.
 */
module Passthrough {
  import opened JsValues
  import opened DestroyAndRecreate

  /**
   * The hash compared between runs: none for a missing input, otherwise the
   * hash of the input's string form.
   */
  function InputHash<V>(render: V -> string, hash: string -> int, input: Option<V>): Option<int>
  {
    if input.None? then None else Some(hash(render(input.value)))
  }

  /** Whether a run whose input hashes to `current` sends the event, given the hash kept from the run before. */
  predicate ChangeDetected(last: Option<int>, current: Option<int>)
  {
    last.Some? && current != last
  }

  /**
   * Consequences of the test: the first run after creation, and the first run
   * after a run without input, never send; the same hash twice never sends; a
   * run without input after one with input always sends.
   */
  lemma ChangeDetectedFacts(last: Option<int>, current: Option<int>)
    ensures !ChangeDetected(None, current)
    ensures !ChangeDetected(current, current)
    ensures last.Some? ==> ChangeDetected(last, None)
    ensures ChangeDetected(last, current) ==> last.Some? && last != current
  {
  }

  /**
   * Two inputs whose string forms collide under the hash are taken for the
   * same input: a change between them sends no event.
   */
  lemma CollisionMissed<V>(render: V -> string, hash: string -> int, a: V, b: V)
    requires hash(render(a)) == hash(render(b))
    ensures !ChangeDetected(InputHash(render, hash, Some(a)), InputHash(render, hash, Some(b)))
  {
  }

  /** The event's payload, `{"node_id": unique_id}`. */
  function EventDetail(uniqueId: string): map<string, Value>
  {
    map[NodeIdKey := Str(uniqueId)]
  }

  /**
   * The event sent for the node whose id renders as `uniqueId` reaches that
   * node's listener, and only when its `reload_on_input_change` setting is
   * truthy; no other node's listener reacts.
   */
  lemma EventReachesOwnNode(props: map<string, Value>, nodeId: int, otherId: int)
    ensures ReloadEventMatches(props, Some(EventDetail(IntToString(nodeId))), nodeId) <==>
            Truthy(Get(props, ReloadOnInputChange))
    ensures otherId != nodeId ==> !ReloadEventMatches(props, Some(EventDetail(IntToString(nodeId))), otherId)
  {
    if ReloadEventMatches(props, Some(EventDetail(IntToString(nodeId))), otherId) {
      IntToStringInjective(nodeId, otherId);
    }
  }

  /** One instance of the backend node class; `render` is `str` and `hash` is the runtime's string hash. */
  class PassthroughNode<V> {
    const render: V -> string
    const hash: string -> int
    var lastInputHash: Option<int>

    constructor (render: V -> string, hash: string -> int)
      ensures this.render == render && this.hash == hash && lastInputHash == None
    {
      this.render := render;
      this.hash := hash;
      lastInputHash := None;
    }

    /**
     * `passthrough(unique_id, any_input)`: returns the input unchanged, sends
     * the event naming `uniqueId` exactly when a change is detected against
     * the hash kept from the previous run, and keeps the new hash.
     */
    method Run(uniqueId: string, input: Option<V>) returns (output: Option<V>, event: Option<string>)
      modifies this
      ensures output == input
      ensures var current := InputHash(render, hash, input);
              && (event.Some? <==> ChangeDetected(old(lastInputHash), current))
              && (event.Some? ==> event.value == uniqueId)
              && lastInputHash == current
    {
      var current: Option<int> := None;
      if input.Some? {
        current := Some(hash(render(input.value)));
      }
      event := None;
      if lastInputHash.Some? && current != lastInputHash {
        event := Some(uniqueId);
      }
      lastInputHash := current;
      output := input;
    }
  }
}
