/**
 * `build_langchain_history` of portfolio_chatbot.py: the chat turns kept in the Streamlit session,
 * each a dictionary with a `role` and a `content`, become the message list the retrieval chain
 * receives. User turns become human messages, assistant turns become AI messages, and turns with
 * any other role are dropped.
 */
module ChatHistory {
  import opened Wrappers
  import opened Values

  /** `HumanMessage(content=…)` and `AIMessage(content=…)`. */
  datatype Message = Human(content: Value) | AI(content: Value)

  /** The message one session turn becomes, if any: `content` defaults to the empty string. */
  function Converted(turn: seq<Entry>): Option<Message> {
    var role := Get(turn, "role");
    var content := GetOr(turn, "content", Text(""));
    if role.Some? && role.value == Text("user") then Some(Human(content))
    else if role.Some? && role.value == Text("assistant") then Some(AI(content))
    else None
  }

  /** The messages of a whole history, in order. */
  function History(history: seq<seq<Entry>>): seq<Message> {
    if history == [] then []
    else
      var last := Converted(history[|history| - 1]);
      History(history[..|history| - 1]) + (if last.Some? then [last.value] else [])
  }

  /** `build_langchain_history(history)` */
  method BuildLangchainHistory(history: seq<seq<Entry>>) returns (converted: seq<Message>)
    ensures converted == History(history)
  {
    converted := [];
    var i := 0;
    while i < |history|
      invariant 0 <= i <= |history|
      invariant converted == History(history[..i])
    {
      var message := history[i];
      var role := Get(message, "role");
      var content := GetOr(message, "content", Text(""));
      if role.Some? && role.value == Text("user") {
        converted := converted + [Human(content)];
      } else if role.Some? && role.value == Text("assistant") {
        converted := converted + [AI(content)];
      }
      assert history[..i + 1][..i] == history[..i];
      i := i + 1;
    }
    assert history[..i] == history;
  }

  /** Converting two stretches of a history one after the other is converting them together. */
  lemma {:induction false} HistoryAppend(a: seq<seq<Entry>>, b: seq<seq<Entry>>)
    ensures History(a + b) == History(a) + History(b)
  {
    if b == [] {
      assert a + b == a;
    } else {
      var b0 := b[..|b| - 1];
      HistoryAppend(a, b0);
      assert (a + b)[..|a + b| - 1] == a + b0;
    }
  }

  /**
   * The indices of the turns that yield a message, in increasing order.
   */
  function KeptTurns(history: seq<seq<Entry>>): (r: seq<nat>)
    ensures forall k :: 0 <= k < |r| ==> r[k] < |history|
  {
    if history == [] then []
    else
      var n := |history| - 1;
      KeptTurns(history[..n]) + (if Converted(history[n]).Some? then [n] else [])
  }

  /**
   * The history keeps exactly the user and assistant turns, in their order: the `k`-th message comes
   * from the `k`-th such turn, is a human message exactly when that turn's role is `user`, and
   * carries that turn's `content`, or the empty string when the turn has none. No other turn yields
   * a message.
   */
  lemma HistorySpec(history: seq<seq<Entry>>)
    ensures |History(history)| == |KeptTurns(history)|
    ensures forall j, k :: 0 <= j < k < |KeptTurns(history)| ==> KeptTurns(history)[j] < KeptTurns(history)[k]
    ensures forall k :: 0 <= k < |KeptTurns(history)| ==>
      Converted(history[KeptTurns(history)[k]]) == Some(History(history)[k])
    ensures forall i :: 0 <= i < |history| && Converted(history[i]).Some? ==> i in KeptTurns(history)
  {
    KeptMessages(history);
    KeptIncreasing(history);
    KeptComplete(history);
  }

  lemma {:induction false} KeptMessages(history: seq<seq<Entry>>)
    ensures |History(history)| == |KeptTurns(history)|
    ensures forall k :: 0 <= k < |KeptTurns(history)| ==>
      Converted(history[KeptTurns(history)[k]]) == Some(History(history)[k])
  {
    if history != [] {
      var n := |history| - 1;
      var init := history[..n];
      KeptMessages(init);
      forall k | 0 <= k < |KeptTurns(history)|
        ensures Converted(history[KeptTurns(history)[k]]) == Some(History(history)[k])
      {
        if k < |KeptTurns(init)| {
          assert history[KeptTurns(init)[k]] == init[KeptTurns(init)[k]];
        }
      }
    }
  }

  lemma {:induction false} KeptIncreasing(history: seq<seq<Entry>>)
    ensures forall j, k :: 0 <= j < k < |KeptTurns(history)| ==> KeptTurns(history)[j] < KeptTurns(history)[k]
  {
    if history != [] {
      KeptIncreasing(history[..|history| - 1]);
    }
  }

  lemma {:induction false} KeptComplete(history: seq<seq<Entry>>)
    ensures forall i :: 0 <= i < |history| && Converted(history[i]).Some? ==> i in KeptTurns(history)
  {
    if history != [] {
      var n := |history| - 1;
      var init := history[..n];
      KeptComplete(init);
      assert forall i :: 0 <= i < n ==> init[i] == history[i];
    }
  }

  /** A turn's message follows its role, and a missing `content` becomes the empty string. */
  lemma ConvertedSpec(turn: seq<Entry>)
    ensures Converted(turn).Some? <==> Get(turn, "role") in {Some(Text("user")), Some(Text("assistant"))}
    ensures Converted(turn).Some? ==>
      (Converted(turn).value.Human? <==> Get(turn, "role") == Some(Text("user")))
    ensures Converted(turn).Some? && (forall j :: 0 <= j < |turn| ==> turn[j].key != "content") ==>
      Converted(turn).value.content == Text("")
  {
  }

  /** Nothing is dropped exactly when every turn is a user or an assistant turn. */
  lemma {:induction false} HistoryLength(history: seq<seq<Entry>>)
    ensures |History(history)| <= |history|
    ensures |History(history)| == |history| <==> forall i :: 0 <= i < |history| ==> Converted(history[i]).Some?
  {
    if history != [] {
      var n := |history| - 1;
      HistoryLength(history[..n]);
      assert forall i :: 0 <= i < n ==> history[..n][i] == history[i];
    }
  }
}
