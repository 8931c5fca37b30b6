/** The termination check the group-chat manager is given: a message ends the
    build when its upper-cased content contains the sentinel `PROJECT_COMPLETE`. */
module Termination {
  import opened Messages
  import opened Text

  const Sentinel: string := "PROJECT_COMPLETE"

  /** `value.upper()`: defined on `str` and `bytes`, an AttributeError on
      `None` and on lists and dicts. */
  function CallUpper(v: Value): Result<Value>
  {
    match v
    case Str(s) => Ok(Str(Upper(s)))
    case Bytes(b) => Ok(Bytes(UpperBytes(b)))
    case PyNone => Err(AttributeError("upper"))
    case Structured => Err(AttributeError("upper"))
  }

  /** `bytes.upper()`: ASCII letters only, as Python defines it for bytes. */
  function UpperBytes(b: seq<byte>): seq<byte>
  {
    seq(|b|, i requires 0 <= i < |b| => if 97 <= b[i] <= 122 then b[i] - 32 else b[i])
  }

  /** `is_termination_msg` as written: the content (`""` when the key is
      missing) is upper-cased first, and only then checked to be a `str`. */
  function IsTerminationMsg(m: Message): Result<bool>
  {
    var content := m.content.GetOr(Str(""));
    match CallUpper(content)
    case Err(e) => Err(e)
    case Ok(up) => Ok(up.Str? && Contains(up.s, Sentinel))
  }

  /** The check ends the build exactly when the content is a string whose
      upper-cased form contains the sentinel. */
  lemma TerminalIff(m: Message)
    ensures IsTerminationMsg(m) == Ok(true)
        <==> m.content.Some? && m.content.value.Str? && Contains(Upper(m.content.value.s), Sentinel)
  {
  }

  /** Upper-casing happens before the sentinel is looked for, so the sentinel
      is found in any letter case: the build ends exactly when some stretch
      of the text upper-cases to `PROJECT_COMPLETE`. */
  lemma CaseInsensitive(name: Option<string>, s: string)
    ensures IsTerminationMsg(Message(name, Some(Str(s)))) == Ok(true)
        <==> exists i :: 0 <= i <= |s| - |Sentinel| && OccursAtIgnoringCase(s, i, Sentinel)
  {
    ContainsUpper(s, Sentinel);
  }

  /** In particular the lower-case spelling ends the build. */
  lemma LowerCaseSentinelTerminates(name: Option<string>, s: string, i: nat)
    requires OccursAt(s, i, "project_complete")
    ensures IsTerminationMsg(Message(name, Some(Str(s)))) == Ok(true)
  {
    assert s[i..i + |Sentinel|] == "project_complete";
    assert Upper("project_complete") == Sentinel;
    assert OccursAtIgnoringCase(s, i, Sentinel);
    CaseInsensitive(name, s);
  }

  /** Two texts that differ only in the case of ASCII letters get the same answer. */
  lemma CaseBlind(name: Option<string>, s: string, t: string)
    requires Upper(s) == Upper(t)
    ensures IsTerminationMsg(Message(name, Some(Str(s)))) == IsTerminationMsg(Message(name, Some(Str(t))))
  {
  }

  /** A message without a `content` key reads as `""` and never ends the build. */
  lemma MissingContentNeverTerminal(name: Option<string>)
    ensures IsTerminationMsg(Message(name, None)) == Ok(false)
  {
    assert !Contains("", Sentinel);
  }

  /** `None` content, and list or dict content, raise in `.upper()` before the
      `isinstance` guard is reached. */
  lemma NoUpperRaises(m: Message)
    requires m.content.Some? && (m.content.value.PyNone? || m.content.value.Structured?)
    ensures IsTerminationMsg(m) == Err(AttributeError("upper"))
  {
  }

  /** For string content the `isinstance` guard always holds: the answer is the
      substring test alone. The guard turns something away only for `bytes`. */
  lemma GuardOnlyRejectsBytes(m: Message)
    requires m.content.Some? && !m.content.value.PyNone? && !m.content.value.Structured?
    ensures m.content.value.Str? ==> IsTerminationMsg(m) == Ok(Contains(Upper(m.content.value.s), Sentinel))
    ensures m.content.value.Bytes? ==> IsTerminationMsg(m) == Ok(false)
  {
  }

  /** The check with the `isinstance` guard placed before the call to
      `.upper()`, as the guard evidently means: content that is not a string
      is simply not terminal. */
  function IsTerminationMsgGuarded(m: Message): bool
  {
    var content := m.content.GetOr(Str(""));
    content.Str? && Contains(Upper(content.s), Sentinel)
  }

  /** The guarded check is total and agrees with the check as written on every
      message the latter does not raise on; it answers `false` exactly where
      the latter raises. */
  lemma GuardedAgrees(m: Message)
    ensures IsTerminationMsg(m).Ok? ==> IsTerminationMsg(m).value == IsTerminationMsgGuarded(m)
    ensures IsTerminationMsg(m).Err? ==> !IsTerminationMsgGuarded(m)
    ensures IsTerminationMsg(m).Err? <==> m.content.Some? && (m.content.value.PyNone? || m.content.value.Structured?)
  {
  }

  /** The input that shows the difference: a tool-call message whose content is `None`. */
  lemma NoneContentExample()
    ensures IsTerminationMsg(Message(Some("CodingAgent"), Some(PyNone))).Err?
    ensures !IsTerminationMsgGuarded(Message(Some("CodingAgent"), Some(PyNone)))
  {
  }
}
