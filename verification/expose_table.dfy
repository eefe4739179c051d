/** The exposed-value table of src/expose.js: the server side keeps a
    table that `set` updates and that answers `getvar` requests; the
    client side's `getAsync` hands back the value of the answer. The IPC
    transport between them is not part of this model: a request is a
    value and an answer is a `Result`. */
module ExposeTable {
  import opened Outcomes

  /** An exposed value; `None` is JavaScript's `undefined`. */
  type Value = Option<string>

  datatype Request = Request(name: string, key: string)

  datatype Reply = Reply(key: string, val: Value)

  const UnknownRequest := "unknown request: "

  function Lookup(exposed: map<string, Value>, key: string): Value {
    if key in exposed then exposed[key] else None
  }

  /** The server's request handler (src/expose.js:10-22): `getvar` answers
      the key with its value, which is `undefined` for a key never set;
      any other request name is an error naming it. */
  function Answer(exposed: map<string, Value>, req: Request): (r: Result<Reply>)
    ensures r.Ok? <==> req.name == "getvar"
    ensures r.Ok? ==> r.value.key == req.key
    ensures r.Ok? && req.key in exposed ==> r.value.val == exposed[req.key]
    ensures r.Ok? && req.key !in exposed ==> r.value.val == None
    ensures r.Err? ==> r.msg == UnknownRequest + req.name
  {
    if req.name == "getvar" then Ok(Reply(req.key, Lookup(exposed, req.key)))
    else Err(UnknownRequest + req.name)
  }

  /** `getAsync` (src/expose.js:37-40): the value of the answer; an error
      answer rejects. Carrying the error's message to the client as is
      holds only in this model: the transport encodes the reply, and an
      `Error` object does not keep its message on the way. `getAsync`
      only ever sends `getvar`, so the error answer does not arise from
      it. */
  function Fetched(answer: Result<Reply>): (r: Result<Value>)
    ensures r.Ok? <==> answer.Ok?
    ensures answer.Ok? ==> r.value == answer.value.val
    ensures answer.Err? ==> r.msg == answer.msg
  {
    match answer
    case Ok(reply) => Ok(reply.val)
    case Err(msg) => Err(msg)
  }

  /** The server's table. */
  class ExposeServer {
    var exposed: map<string, Value>

    constructor()
      ensures exposed == map[]
    {
      exposed := map[];
    }

    /** `set` (src/expose.js:25-27). */
    method Set(name: string, val: Value)
      modifies this
      ensures exposed == old(exposed)[name := val]
    {
      exposed := exposed[name := val];
    }

    /** The server exposer's `expose` (src/envex.js:167-173): every key of
        the exposure is `set`, in whatever order the keys come. */
    method Publish(m: map<string, Value>)
      modifies this
      ensures exposed == old(exposed) + m
    {
      var todo := m.Keys;
      while todo != {}
        invariant todo <= m.Keys
        invariant exposed == old(exposed) + map k | k in m.Keys - todo :: m[k]
        decreases todo
      {
        var k :| k in todo;
        Set(k, m[k]);
        todo := todo - {k};
      }
      assert m.Keys - todo == m.Keys;
    }
  }

  /** After `set(name, val)` a remote `getAsync(name)` yields `val`, and
      every other key still yields what it did before. */
  lemma SetThenGet(exposed: map<string, Value>, name: string, val: Value, key: string)
    ensures Fetched(Answer(exposed[name := val], Request("getvar", key)))
            == if key == name then Ok(val) else Fetched(Answer(exposed, Request("getvar", key)))
  {
  }

  /** Publishing exposures one after the other leaves, for each key, the
      value of the last exposure that names it. */
  function Replay(exposed: map<string, Value>, exposures: seq<map<string, Value>>): map<string, Value> {
    if exposures == [] then exposed
    else Replay(exposed, exposures[..|exposures| - 1]) + exposures[|exposures| - 1]
  }

  lemma {:induction false} LastWriteWins(exposed: map<string, Value>, exposures: seq<map<string, Value>>,
                                         key: string, i: nat)
    requires i < |exposures| && key in exposures[i]
    requires forall j :: i < j < |exposures| ==> key !in exposures[j]
    ensures Lookup(Replay(exposed, exposures), key) == exposures[i][key]
    decreases |exposures|
  {
    if i < |exposures| - 1 {
      var front := exposures[..|exposures| - 1];
      LastWriteWins(exposed, front, key, i);
    }
  }

  lemma {:induction false} NeverWritten(exposed: map<string, Value>, exposures: seq<map<string, Value>>,
                                        key: string)
    requires forall j :: 0 <= j < |exposures| ==> key !in exposures[j]
    ensures Lookup(Replay(exposed, exposures), key) == Lookup(exposed, key)
    decreases |exposures|
  {
    if exposures != [] {
      NeverWritten(exposed, exposures[..|exposures| - 1], key);
    }
  }
}
