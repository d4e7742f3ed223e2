/** Sequences of requests. AUTOINCREMENT promises more than each handler's own
    contract states: an id is never handed out twice, even after its row has
    been deleted. This module states that promise over any history of requests. */
module History {
  import opened Optional
  import opened Detections
  import opened ImagesTable
  import opened AppState
  import opened AppProperties

  /** One request that changes the stores. `index` changes nothing and is left out. */
  datatype Request =
    | UploadRequest(verb: Verb, part: Option<string>, detect: string -> Option<seq<Detection>>)
    | EditRequest(id: int, verb: Verb, part: Option<string>, detect: string -> Option<seq<Detection>>)
    | DeleteRequest(id: int)

  /** The stores after serving one request. */
  function Apply(s: State, secure: string -> string, request: Request): (t: State)
    requires Wellformed(s)
    ensures Wellformed(t)
    ensures t.lastId >= s.lastId
  {
    match request
    case UploadRequest(verb, part, detect) => Upload(s, secure, verb, part, detect).state
    case EditRequest(id, verb, part, detect) => Edit(s, secure, id, verb, part, detect).state
    case DeleteRequest(id) => Delete(s, id).state
  }

  /** The stores after serving `requests` in order, starting from `s`. */
  function Run(s: State, secure: string -> string, requests: seq<Request>): (t: State)
    requires Wellformed(s)
    ensures Wellformed(t)
    ensures t.lastId >= s.lastId
    decreases |requests|
  {
    if requests == [] then s
    else Apply(Run(s, secure, requests[..|requests| - 1]), secure, requests[|requests| - 1])
  }

  /** The counter at any point of a history is at most the counter at its end. */
  lemma {:induction false} CounterNeverFalls(s: State, secure: string -> string, requests: seq<Request>, k: nat)
    requires Wellformed(s)
    requires k <= |requests|
    ensures Run(s, secure, requests[..k]).lastId <= Run(s, secure, requests).lastId
    decreases |requests|
  {
    if k < |requests| {
      var earlier := requests[..|requests| - 1];
      assert requests[..k] == earlier[..k];
      assert earlier[..|earlier|] == earlier;
      CounterNeverFalls(s, secure, earlier, k);
    } else {
      assert requests[..k] == requests;
    }
  }

  /** An upload that succeeds after any history gets an id that no row held at
      any point of that history, including rows deleted since. */
  lemma NoIdReused(s: State, secure: string -> string, requests: seq<Request>, k: nat,
                   verb: Verb, part: Option<string>, detect: string -> Option<seq<Detection>>)
    requires Wellformed(s)
    requires k <= |requests|
    requires Upload(Run(s, secure, requests), secure, verb, part, detect).reply == Done
    ensures
      var u := Upload(Run(s, secure, requests), secure, verb, part, detect).state;
      && u.lastId in Table(u.rows)
      && u.lastId !in Table(Run(s, secure, requests[..k]).rows)
  {
    var t := Run(s, secure, requests);
    UploadSucceedsIff(t, secure, verb, part, detect);
    UploadSucceeds(t, secure, part.value, detect);
    CounterNeverFalls(s, secure, requests, k);
    IdsAtMostCounter(Run(s, secure, requests[..k]));
  }
}
