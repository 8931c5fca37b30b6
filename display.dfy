/** The display step after a build: the messages appended to the group chat
    since the length recorded before the build (`previous_len`) are shown one
    by one under their speaker's name, skipping those whose content is not a
    string. */
module Display {
  import opened Messages

  /** One chat bubble: `st.chat_message(name)` showing `content`. */
  datatype Shown = Shown(speaker: string, text: string)

  /** What the display loop renders: the bubbles shown, in order, and the
      exception that stopped the loop, if one did (the bubbles before it stay
      on screen). */
  datatype Rendering = Rendering(shown: seq<Shown>, failure: Option<PyError>)

  /** Where `messages[previous_len:]` starts: Python clamps a start beyond the end. */
  function SliceStart(log: seq<Message>, previousLen: nat): (start: nat)
    ensures start <= |log|
    ensures start == previousLen || (previousLen > |log| && start == |log|)
  {
    if previousLen <= |log| then previousLen else |log|
  }

  /** One iteration of the loop on an unstopped rendering: non-string content
      is skipped; string content is shown under `msg["name"]`, which raises
      KeyError when the message has no name. */
  function Step(r: Rendering, msg: Message): Rendering
  {
    if !HasText(msg) then r
    else if msg.name.None? then Rendering(r.shown, Some(KeyError("name")))
    else Rendering(r.shown + [Shown(msg.name.value, msg.content.value.s)], None)
  }

  /** The rendering of `log[lo..hi]`, message by message; once a step has
      raised, nothing further is shown. */
  function Render(log: seq<Message>, lo: nat, hi: nat): Rendering
    requires lo <= hi <= |log|
    decreases hi - lo
  {
    if hi == lo then Rendering([], None)
    else
      var before := Render(log, lo, hi - 1);
      if before.failure.Some? then before else Step(before, log[hi - 1])
  }

  /** What the display shows after a build: `messages[previous_len:]`, rendered. */
  function NewMessages(log: seq<Message>, previousLen: nat): Rendering
  {
    Render(log, SliceStart(log, previousLen), |log|)
  }

  /** The display loop, with its `continue` for non-string content. */
  method DisplayNewMessages(log: seq<Message>, previousLen: nat) returns (r: Rendering)
    ensures r == NewMessages(log, previousLen)
  {
    var start := SliceStart(log, previousLen);
    var shown: seq<Shown> := [];
    var i := start;
    while i < |log|
      invariant start <= i <= |log|
      invariant Render(log, start, i) == Rendering(shown, None)
    {
      var msg := log[i];
      i := i + 1;
      if !HasText(msg) {
        continue;
      }
      if msg.name.None? {
        RenderStaysStopped(log, start, i, |log|);
        return Rendering(shown, Some(KeyError("name")));
      }
      shown := shown + [Shown(msg.name.value, msg.content.value.s)];
    }
    r := Rendering(shown, None);
  }

  /** Once the display has stopped, later messages change nothing. */
  lemma {:induction false} RenderStaysStopped(log: seq<Message>, lo: nat, j: nat, hi: nat)
    requires lo <= j <= hi <= |log|
    requires Render(log, lo, j).failure.Some?
    ensures Render(log, lo, hi) == Render(log, lo, j)
    decreases hi - j
  {
    if hi > j {
      RenderStaysStopped(log, lo, j, hi - 1);
    }
  }

  /** The positions in `log[lo..hi]` that hold string content, in log order. */
  function TextIndices(log: seq<Message>, lo: nat, hi: nat): (idx: seq<nat>)
    requires lo <= hi <= |log|
    ensures forall k :: 0 <= k < |idx| ==> lo <= idx[k] < hi && HasText(log[idx[k]])
    ensures forall k, l :: 0 <= k < l < |idx| ==> idx[k] < idx[l]
    ensures forall i :: lo <= i < hi && HasText(log[i]) ==> i in idx
    decreases hi - lo
  {
    if hi == lo then []
    else TextIndices(log, lo, hi - 1) + (if HasText(log[hi - 1]) then [hi - 1] else [])
  }

  /** Every string message is named. */
  predicate NamedText(log: seq<Message>, lo: nat, hi: nat)
    requires lo <= hi <= |log|
  {
    forall i :: lo <= i < hi && HasText(log[i]) ==> log[i].name.Some?
  }

  /** When no string message lacks a name, the display completes and shows
      exactly the string messages of `log[lo..hi]`, in log order, each under
      its own name; otherwise it stops with KeyError("name"). */
  lemma {:induction false} RenderShowsTextMessages(log: seq<Message>, lo: nat, hi: nat)
    requires lo <= hi <= |log|
    ensures var r := Render(log, lo, hi);
      && (r.failure.None? <==> NamedText(log, lo, hi))
      && (r.failure.Some? ==> r.failure.value == KeyError("name"))
      && (r.failure.None? ==>
            var idx := TextIndices(log, lo, hi);
            && |r.shown| == |idx|
            && forall k :: 0 <= k < |idx| ==>
                 r.shown[k] == Shown(log[idx[k]].name.value, log[idx[k]].content.value.s))
    decreases hi - lo
  {
    if hi > lo {
      RenderShowsTextMessages(log, lo, hi - 1);
      var before := Render(log, lo, hi - 1);
      if before.failure.Some? {
        assert !NamedText(log, lo, hi - 1);
      }
    }
  }

  /** When a string message without a name stops the display, what stays on
      screen is the complete rendering of the messages before that one. */
  lemma {:induction false} RenderStopsAtFirstUnnamed(log: seq<Message>, lo: nat, hi: nat)
    requires lo <= hi <= |log|
    requires Render(log, lo, hi).failure.Some?
    ensures exists j :: (lo <= j < hi && HasText(log[j]) && log[j].name.None?
      && Render(log, lo, j).failure.None? && Render(log, lo, hi).shown == Render(log, lo, j).shown)
    decreases hi - lo
  {
    var before := Render(log, lo, hi - 1);
    if before.failure.Some? {
      RenderStopsAtFirstUnnamed(log, lo, hi - 1);
    } else {
      assert HasText(log[hi - 1]) && log[hi - 1].name.None?;
    }
  }

  /** Nothing recorded before `previous_len` is displayed, and every string
      message after it is, when all of them are named. */
  lemma NewMessagesExact(log: seq<Message>, previousLen: nat)
    requires NamedText(log, SliceStart(log, previousLen), |log|)
    ensures var r := NewMessages(log, previousLen);
      var idx := TextIndices(log, SliceStart(log, previousLen), |log|);
      && r.failure.None?
      && |r.shown| == |idx|
      && (forall k :: 0 <= k < |idx| ==>
            (previousLen <= idx[k] && r.shown[k] == Shown(log[idx[k]].name.value, log[idx[k]].content.value.s)))
      && (forall i :: previousLen <= i < |log| && HasText(log[i]) ==> i in idx)
  {
    RenderShowsTextMessages(log, SliceStart(log, previousLen), |log|);
  }
}
