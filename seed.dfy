/** The message that starts a build: the prompt the user typed, stripped of
    surrounding whitespace and addressed to the requirement agent. */
module Seed {
  import opened Messages
  import opened Text
  import Registry

  const Addressee: string := "RequirementAgent"
  const Prefix: string := "@" + Addressee + ": "

  /** `f"@RequirementAgent: {user_prompt.strip()}"`. */
  function SeedMessage(prompt: string): string
  {
    Prefix + Strip(prompt)
  }

  /** `if user_prompt:` — an empty prompt starts nothing. */
  function Submit(prompt: string): Option<string>
  {
    if prompt == "" then None else Some(SeedMessage(prompt))
  }

  /** The seed always begins with the prefix, and what follows it is the
      prompt with its leading and trailing whitespace removed and nothing else:
      a slice of the prompt that neither starts nor ends with whitespace, with
      only whitespace around it. */
  lemma SeedShape(prompt: string)
    ensures var r := SeedMessage(prompt);
      var b := StripBounds(prompt);
      && |Prefix| <= |r| && r[..|Prefix|] == Prefix
      && r[|Prefix|..] == prompt[b.0..b.1]
      && AllSpace(prompt[..b.0]) && AllSpace(prompt[b.1..])
      && (|r| > |Prefix| ==> !IsSpace(r[|Prefix|]) && !IsSpace(r[|r| - 1]))
  {
    StripKeepsCore(prompt);
    var b := StripBounds(prompt);
    var r := SeedMessage(prompt);
    assert r[|Prefix|..] == prompt[b.0..b.1];
    if |r| > |Prefix| {
      assert r[|Prefix|] == prompt[b.0];
      assert r[|r| - 1] == prompt[b.1 - 1];
    }
  }

  /** A prompt of nothing but whitespace seeds the bare prefix. */
  lemma BlankPromptSeedsPrefix(prompt: string)
    requires prompt != "" && AllSpace(prompt)
    ensures Submit(prompt) == Some(Prefix)
  {
    StripKeepsCore(prompt);
    var b := StripBounds(prompt);
    assert Strip(prompt) == prompt[b.0..b.1] == [];
    assert SeedMessage(prompt) == Prefix + [] == Prefix;
  }

  /** Stripping the prompt beforehand changes nothing. */
  lemma SeedIgnoresStrippedWhitespace(prompt: string)
    ensures SeedMessage(Strip(prompt)) == SeedMessage(prompt)
  {
    StripIdempotent(prompt);
  }

  /** Whitespace typed around a request never reaches the agents: a padded
      prompt seeds the same message as the bare one. */
  lemma SeedIgnoresPadding(pre: string, prompt: string, post: string)
    requires AllSpace(pre) && AllSpace(post)
    ensures SeedMessage(pre + prompt + post) == SeedMessage(prompt)
  {
    StripPadding(pre, prompt, post);
  }

  /** The seed mentions a registered agent: the name after the `@` is that of
      the second participant of the group chat. */
  lemma SeedAddressesRegisteredAgent(prompt: string, model: string)
    ensures var r := SeedMessage(prompt);
      && r[0] == '@'
      && r[1..1 + |Addressee|] == Addressee
      && Registry.IndexOf(Registry.Agents(model), Addressee) == Some(1)
  {
    var r := SeedMessage(prompt);
    assert r[..|Prefix|] == Prefix;
    assert Prefix[1..1 + |Addressee|] == Addressee;
    assert r[1..1 + |Addressee|] == r[..|Prefix|][1..1 + |Addressee|];
    Registry.PipelineAgentsRegistered(model, 0);
  }
}
