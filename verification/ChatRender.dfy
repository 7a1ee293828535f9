/** The whole prompt, by both renderers. */
module ChatRender {
  import opened ChatTemplate
  import opened Chunks
  import opened Occurrences
  import opened Probing

  /** Every message has a role and a content. */
  predicate Complete(msgs: seq<Message>) {
    forall i :: 0 <= i < |msgs| ==> msgs[i].role.Some? && msgs[i].content.Some?
  }

  predicate KnownRoles(t: Template, msgs: seq<Message>)
    requires Complete(msgs)
  {
    forall i :: 0 <= i < |msgs| ==> RoleOf(t, msgs[i].role.value).Some?
  }

  /** The contents of the system and developer messages. */
  function SystemContents(msgs: seq<Message>): (parts: seq<string>)
    requires Complete(msgs)
  {
    if msgs == [] then []
    else
      var n := |msgs| - 1;
      SystemContents(msgs[..n]) + if IsSystem(msgs[n].role.value) then [msgs[n].content.value] else []
  }

  function Joined(sep: string, parts: seq<string>): string {
    if parts == [] then ""
    else if |parts| == 1 then parts[0]
    else Joined(sep, parts[..|parts| - 1]) + sep + parts[|parts| - 1]
  }

  /** A default system message is wanted. */
  predicate NeedsDefault(t: Template, msgs: seq<Message>)
    requires Complete(msgs) && msgs != []
  {
    !t.prefixMode && !IsSystem(msgs[0].role.value) && t.defaultSystem != ""
  }

  predicate NeedsEffort(t: Template, thinking: bool) {
    thinking && t.effortFormat != ""
  }

  predicate Skipped(t: Template, m: Message)
    requires m.role.Some?
  {
    t.prefixMode && IsSystem(m.role.value)
  }

  function Generation(t: Template, thinking: bool, gen: bool): string {
    if !gen then "" else if thinking then t.thinkingGeneration else t.generation
  }

  // ---------------------------------------------------------------- the buffer renderer's prompt

  function CHead(t: Template, msgs: seq<Message>): string
    requires Complete(msgs) && msgs != []
  {
    t.bos + (if t.prefixMode then Joined(t.separator, SystemContents(msgs))
             else if NeedsDefault(t, msgs) then CMessage(t.system, t.defaultSystem)
             else "")
  }

  function CReasoning(t: Template, thinking: bool, effort: Option<string>): string
    requires NeedsEffort(t, thinking) ==> CEffort(t.effortFormat, EffortName(effort)).Some?
  {
    if NeedsEffort(t, thinking) then CMessage(t.system, CEffort(t.effortFormat, EffortName(effort)).value) else ""
  }

  function CTurns(t: Template, msgs: seq<Message>): string
    requires Complete(msgs) && KnownRoles(t, msgs)
  {
    if msgs == [] then ""
    else
      var n := |msgs| - 1;
      CTurns(t, msgs[..n])
        + if Skipped(t, msgs[n]) then "" else CMessage(RoleOf(t, msgs[n].role.value).value, msgs[n].content.value)
  }

  /** The arguments are ones the renderer accepts. */
  predicate CAccepts(t: Template, msgs: seq<Message>, thinking: bool, effort: Option<string>) {
    && msgs != [] && (thinking ==> t.supportsThinking) && Complete(msgs) && KnownRoles(t, msgs)
    && (NeedsEffort(t, thinking) ==>
          && CEffort(t.effortFormat, EffortName(effort)).Some?
          && |CEffort(t.effortFormat, EffortName(effort)).value| < 256)
  }

  function CPrompt(t: Template, msgs: seq<Message>, thinking: bool, effort: Option<string>, gen: bool): string
    requires CAccepts(t, msgs, thinking, effort)
  {
    CHead(t, msgs) + CReasoning(t, thinking, effort) + CTurns(t, msgs) + Generation(t, thinking, gen)
  }

  // ---------------------------------------------------------------- the list renderer's prompt

  predicate PyAccepts(t: Template, msgs: seq<Message>, thinking: bool) {
    msgs != [] && (thinking ==> t.supportsThinking) && Complete(msgs) && KnownRoles(t, msgs)
  }

  function PyHead(t: Template, msgs: seq<Message>): string
    requires Complete(msgs) && msgs != []
  {
    t.bos + (if t.prefixMode then Joined(t.separator, SystemContents(msgs))
             else if NeedsDefault(t, msgs) then t.system.prefix + t.defaultSystem + t.system.suffix
             else "")
  }

  function PyReasoning(t: Template, thinking: bool, effort: Option<string>): string {
    if NeedsEffort(t, thinking) then
      t.system.prefix + PyEffort(t.effortFormat, EffortName(effort)) + t.system.suffix
    else ""
  }

  function PyTurns(t: Template, msgs: seq<Message>, space: char -> bool): string
    requires Complete(msgs) && KnownRoles(t, msgs)
  {
    if msgs == [] then ""
    else
      var n := |msgs| - 1;
      PyTurns(t, msgs[..n], space)
        + if Skipped(t, msgs[n]) then ""
          else PyMessage(RoleOf(t, msgs[n].role.value).value, msgs[n].content.value, space)
  }

  function PyPrompt(t: Template, msgs: seq<Message>, thinking: bool, effort: Option<string>, gen: bool,
                    space: char -> bool): string
    requires PyAccepts(t, msgs, thinking)
  {
    PyHead(t, msgs) + PyReasoning(t, thinking, effort) + PyTurns(t, msgs, space) + Generation(t, thinking, gen)
  }

  // ---------------------------------------------------------------- they agree

  /** A text with no marker in it and no white space at its ends. */
  predicate Plain(rule: Role, s: string) {
    (rule.stripAfter == "" || !Occurs(s, rule.stripAfter)) && (rule.trim ==> Bare(s, CSpace))
  }

  predicate OnePlaceholder(format: string) {
    var f := Find(format, PLACEHOLDER);
    f >= 0 && !Occurs(format[f + |PLACEHOLDER|..], PLACEHOLDER)
  }

  /** Those of the template's own texts that are written are plain, and the effort format, if it
      is used, has exactly one placeholder. */
  predicate PlainTemplate(t: Template, msgs: seq<Message>, thinking: bool, effort: Option<string>)
    requires Complete(msgs) && msgs != []
  {
    && (NeedsDefault(t, msgs) ==> Plain(t.system, t.defaultSystem))
    && (NeedsEffort(t, thinking) ==>
          OnePlaceholder(t.effortFormat) && Plain(t.system, PyEffort(t.effortFormat, EffortName(effort))))
  }

  ghost predicate AgreeableMessages(t: Template, msgs: seq<Message>, space: char -> bool)
    requires Complete(msgs) && KnownRoles(t, msgs)
  {
    forall i :: 0 <= i < |msgs| ==> Agreeable(RoleOf(t, msgs[i].role.value).value, msgs[i].content.value, space)
  }

  lemma {:induction false} TurnsAgree(t: Template, msgs: seq<Message>, space: char -> bool)
    requires Wider(space) && Complete(msgs) && KnownRoles(t, msgs) && AgreeableMessages(t, msgs, space)
    ensures CTurns(t, msgs) == PyTurns(t, msgs, space)
  {
    hide Agreeable, CBody, PyBody, Wider;
    if msgs != [] {
      var n := |msgs| - 1;
      TurnsAgree(t, msgs[..n], space);
      BodiesAgree(RoleOf(t, msgs[n].role.value).value, msgs[n].content.value, space);
    }
  }

  lemma HeadsAgree(t: Template, msgs: seq<Message>)
    requires Complete(msgs) && msgs != [] && (NeedsDefault(t, msgs) ==> Plain(t.system, t.defaultSystem))
    ensures CHead(t, msgs) == PyHead(t, msgs)
  {
    UnchangedIff(t.system, t.defaultSystem);
    hide CBody, Occurs, Bare, Joined, SystemContents;
  }

  lemma ReasoningsAgree(t: Template, thinking: bool, effort: Option<string>)
    requires NeedsEffort(t, thinking) ==>
      OnePlaceholder(t.effortFormat) && Plain(t.system, PyEffort(t.effortFormat, EffortName(effort)))
    ensures NeedsEffort(t, thinking) ==> CEffort(t.effortFormat, EffortName(effort)).Some?
    ensures CReasoning(t, thinking, effort) == PyReasoning(t, thinking, effort)
  {
    if NeedsEffort(t, thinking) {
      var name := EffortName(effort);
      EffortAgreesIff(t.effortFormat, name);
      UnchangedIff(t.system, PyEffort(t.effortFormat, name));
      hide CBody, Occurs, Bare, CEffort, PyEffort;
    }
  }

  /** Whatever the buffer renderer produces, the list renderer produces too. */
  lemma PromptsAgree(t: Template, msgs: seq<Message>, thinking: bool, effort: Option<string>, gen: bool,
                     space: char -> bool)
    requires CAccepts(t, msgs, thinking, effort)
    requires Wider(space) && PlainTemplate(t, msgs, thinking, effort) && AgreeableMessages(t, msgs, space)
    ensures PyAccepts(t, msgs, thinking)
    ensures CPrompt(t, msgs, thinking, effort, gen) == PyPrompt(t, msgs, thinking, effort, gen, space)
  {
    HeadsAgree(t, msgs);
    ReasoningsAgree(t, thinking, effort);
    TurnsAgree(t, msgs, space);
    hide CHead, PyHead, CReasoning, PyReasoning, CTurns, PyTurns, AgreeableMessages, Wider, PlainTemplate;
  }

  // ---------------------------------------------------------------- into a buffer

  /** Appends if the text and a terminating NUL still fit. */
  method Append(out: array<char>, cap: nat, length: nat, text: string) returns (ok: bool, length': nat)
    requires cap <= out.Length && length < cap
    modifies out
    ensures ok <==> length + |text| < cap
    ensures length' < cap && out[..length] == old(out[..length])
    ensures ok ==> length' == length + |text| && out[..length'] == old(out[..length]) + text && out[length'] == '\0'
    ensures !ok ==> length' == length
  {
    if |text| >= cap || length >= cap - |text| {
      return false, length;
    }
    ghost var before := out[..length];
    for i := 0 to |text|
      invariant out[..length + i] == before + text[..i]
    {
      out[length + i] := text[i];
      assert out[..length + i + 1] == out[..length + i] + [text[i]];
    }
    out[length + |text|] := '\0';
    assert text[..|text|] == text;
    assert out[..length + |text|] == before + text;
    assert out[..length] == before;
    return true, length + |text|;
  }

  lemma ForwardStep(content: string, marker: string, cursor: nat, last: int)
    requires marker != "" && cursor <= |content|
    ensures var f := FindFrom(content, marker, cursor);
      && (f >= 0 ==> f + |marker| <= |content|)
      && LastForward(content, marker, cursor, last) ==
         if f < 0 then last else LastForward(content, marker, f + |marker|, f)
  {
    hide FindFrom;
  }

  lemma FromStart(content: string)
    ensures content[0..] == content
  {
  }

  /** Where the content starts after stripping: the scan for the last match. */
  method StripStart(content: string, marker: string) returns (start: nat)
    requires marker != ""
    ensures start <= |content| && content[start..] == AfterForward(content, marker)
  {
    hide At, FindFrom, LastForward;
    var cursor, last: int := 0, -1;
    var f := FindFrom(content, marker, 0);
    while f >= 0
      invariant -1 <= last && (last >= 0 ==> last + |marker| <= |content|)
      invariant 0 <= cursor <= |content| && f == FindFrom(content, marker, cursor)
      invariant LastForward(content, marker, 0, -1) == LastForward(content, marker, cursor, last)
      decreases |content| - cursor
    {
      ForwardStep(content, marker, cursor, last);
      last := f;
      cursor := f + |marker|;
      f := FindFrom(content, marker, cursor);
    }
    ForwardStep(content, marker, cursor, last);
    FromStart(content);
    start := if last >= 0 then last + |marker| else 0;
  }

  lemma TrimLeftStep(s: string, i: nat)
    requires i < |s|
    ensures TrimLeft(s[i..], CSpace) == if CSpace(s[i]) then TrimLeft(s[i + 1..], CSpace) else s[i..]
  {
    assert s[i..][1..] == s[i + 1..];
  }

  lemma TrimRightStep(s: string, i: nat, j: nat)
    requires i < j <= |s|
    ensures TrimRight(s[i..j], CSpace) == if CSpace(s[j - 1]) then TrimRight(s[i..j - 1], CSpace) else s[i..j]
  {
    assert s[i..j][..j - i - 1] == s[i..j - 1];
  }

  lemma TrimNothing(s: string, i: nat)
    requires i <= |s|
    ensures s[0..] == s && s[i..|s|] == s[i..] && TrimLeft("", CSpace) == "" && TrimRight("", CSpace) == ""
  {
  }

  /** Drops white space from both ends. */
  method TrimText(s: string) returns (r: string)
    ensures r == Trim(s, CSpace)
  {
    hide TrimLeft, TrimRight, CSpace, Trim;
    TrimIs(s);
    var start, len := 0, |s|;
    TrimNothing(s, 0);
    while len > 0 && CSpace(s[start])
      invariant 0 <= len && start + len == |s| && TrimLeft(s[start..], CSpace) == TrimLeft(s, CSpace)
    {
      TrimLeftStep(s, start);
      start, len := start + 1, len - 1;
    }
    TrimNothing(s, start);
    if len > 0 { TrimLeftStep(s, start); }
    ghost var left := TrimLeft(s, CSpace);
    while len > 0 && CSpace(s[start + len - 1])
      invariant 0 <= len && start + len <= |s| && TrimRight(s[start..start + len], CSpace) == TrimRight(left, CSpace)
    {
      TrimRightStep(s, start, start + len);
      len := len - 1;
    }
    if len > 0 { TrimRightStep(s, start, start + len); }
    r := s[start..start + len];
  }

  method AppendMessage(rule: Role, content: string, out: array<char>, cap: nat, length: nat)
    returns (ok: bool, length': nat)
    requires cap <= out.Length && length < cap
    modifies out
    ensures ok <==> length + |CMessage(rule, content)| < cap
    ensures length' < cap
    ensures ok ==> length' == length + |CMessage(rule, content)| && out[length'] == '\0'
    ensures ok ==> out[..length'] == old(out[..length]) + CMessage(rule, content)
  {
    hide CBody;
    var body := BodyOf(rule, content);
    ok, length' := Append(out, cap, length, rule.prefix);
    if ok {
      ok, length' := Append(out, cap, length', body);
    }
    if ok {
      ok, length' := Append(out, cap, length', rule.suffix);
    }
    TwoParts(old(out[..length]), rule.prefix, body, rule.suffix);
  }

  method BodyOf(rule: Role, content: string) returns (body: string)
    ensures body == CBody(rule, content)
  {
    hide AfterForward, Trim;
    body := content;
    if rule.stripAfter != "" {
      var start := StripStart(content, rule.stripAfter);
      body := content[start..];
    }
    if rule.trim {
      body := TrimText(body);
    }
  }

  /** The system messages, joined as they are written. */
  method AppendSystem(t: Template, msgs: seq<Message>, out: array<char>, cap: nat, length: nat)
    returns (ok: bool, length': nat)
    requires Complete(msgs) && cap <= out.Length && length < cap
    modifies out
    ensures var text := Joined(t.separator, SystemContents(msgs));
      && (ok <==> length + |text| < cap)
      && length' < cap
      && (ok ==> length' == length + |text| && out[..length'] == old(out[..length]) + text)
  {
    hide Joined, SystemContents;
    var emitted := 0;
    ok, length' := true, length;
    NoParts(t.separator);
    ghost var before := out[..length];
    assert before + "" == before;
    for i := 0 to |msgs|
      invariant ok && length' < cap && emitted == |SystemContents(msgs[..i])|
      invariant var text := Joined(t.separator, SystemContents(msgs[..i]));
        length' == length + |text| && out[..length'] == before + text
    {
      NextSystem(t.separator, msgs, i);
      if IsSystem(msgs[i].role.value) {
        if emitted > 0 {
          ok, length' := Append(out, cap, length', t.separator);
        }
        if ok {
          ok, length' := Append(out, cap, length', msgs[i].content.value);
        }
        if !ok {
          SystemGrows(t.separator, msgs, i + 1);
          return;
        }
        emitted := emitted + 1;
      }
    }
    assert msgs[..|msgs|] == msgs;
  }

  lemma NoParts(sep: string)
    ensures SystemContents([]) == [] && Joined(sep, []) == ""
  {
  }

  lemma NextSystem(sep: string, msgs: seq<Message>, i: nat)
    requires Complete(msgs) && i < |msgs|
    ensures var before, after := SystemContents(msgs[..i]), SystemContents(msgs[..i + 1]);
      if IsSystem(msgs[i].role.value) then
        && |after| == |before| + 1
        && Joined(sep, after) == (if before == [] then "" else Joined(sep, before) + sep) + msgs[i].content.value
      else after == before
  {
    assert msgs[..i + 1][..i] == msgs[..i];
    var before := SystemContents(msgs[..i]);
    assert IsSystem(msgs[i].role.value) ==> (before + [msgs[i].content.value])[..|before|] == before;
    assert before + [] == before;
  }

  lemma {:induction false} SystemGrows(sep: string, msgs: seq<Message>, i: nat)
    requires Complete(msgs) && i <= |msgs|
    ensures |Joined(sep, SystemContents(msgs[..i]))| <= |Joined(sep, SystemContents(msgs))|
    decreases |msgs| - i
  {
    if i < |msgs| {
      NextSystem(sep, msgs, i);
      SystemGrows(sep, msgs, i + 1);
    } else {
      assert msgs[..i] == msgs;
    }
  }

  method AppendTurns(t: Template, msgs: seq<Message>, out: array<char>, cap: nat, length: nat)
    returns (ok: bool, length': nat)
    requires Complete(msgs) && cap <= out.Length && length < cap
    modifies out
    ensures ok <==> KnownRoles(t, msgs) && length + |CTurns(t, msgs)| < cap
    ensures length' < cap
    ensures ok ==> length' == length + |CTurns(t, msgs)| && out[..length'] == old(out[..length]) + CTurns(t, msgs)
  {
    hide CTurns, CMessage;
    ok, length' := true, length;
    ghost var before := out[..length];
    NoTurns(t);
    assert before + "" == before;
    for i := 0 to |msgs|
      invariant ok && length' < cap && KnownRoles(t, msgs[..i])
      invariant length' == length + |CTurns(t, msgs[..i])| && out[..length'] == before + CTurns(t, msgs[..i])
    {
      var role := RoleOf(t, msgs[i].role.value);
      if role.None? {
        return false, length';
      }
      NextTurn(t, msgs, i);
      if !Skipped(t, msgs[i]) {
        ok, length' := AppendMessage(role.value, msgs[i].content.value, out, cap, length');
        if !ok {
          if KnownRoles(t, msgs) { TurnsGrow(t, msgs, i + 1); }
          return;
        }
      }
    }
    assert msgs[..|msgs|] == msgs;
  }

  lemma NoTurns(t: Template)
    ensures CTurns(t, []) == ""
  {
  }

  lemma NextTurn(t: Template, msgs: seq<Message>, i: nat)
    requires Complete(msgs) && i < |msgs| && KnownRoles(t, msgs[..i]) && RoleOf(t, msgs[i].role.value).Some?
    ensures KnownRoles(t, msgs[..i + 1])
    ensures CTurns(t, msgs[..i + 1]) == CTurns(t, msgs[..i])
      + if Skipped(t, msgs[i]) then "" else CMessage(RoleOf(t, msgs[i].role.value).value, msgs[i].content.value)
  {
    assert msgs[..i + 1][..i] == msgs[..i];
  }

  lemma {:induction false} TurnsGrow(t: Template, msgs: seq<Message>, i: nat)
    requires Complete(msgs) && KnownRoles(t, msgs) && i <= |msgs|
    ensures |CTurns(t, msgs[..i])| <= |CTurns(t, msgs)|
    decreases |msgs| - i
  {
    hide CTurns, CMessage;
    if i < |msgs| {
      NextTurn(t, msgs, i);
      TurnsGrow(t, msgs, i + 1);
    } else {
      assert msgs[..i] == msgs;
    }
  }

  method AppendHead(t: Template, msgs: seq<Message>, out: array<char>, cap: nat) returns (ok: bool, length: nat)
    requires Complete(msgs) && msgs != [] && 1 <= cap <= out.Length
    modifies out
    ensures ok <==> |CHead(t, msgs)| < cap
    ensures length < cap
    ensures ok ==> length == |CHead(t, msgs)| && out[..length] == CHead(t, msgs)
  {
    hide CMessage, Joined, SystemContents;
    out[0] := '\0';
    ok, length := Append(out, cap, 0, t.bos);
    if !ok {
      return;
    }
    if t.prefixMode {
      ok, length := AppendSystem(t, msgs, out, cap, length);
    } else if !IsSystem(msgs[0].role.value) && t.defaultSystem != "" {
      ok, length := AppendMessage(t.system, t.defaultSystem, out, cap, length);
    }
  }

  /** The effort line, through a buffer of 256 characters. */
  method AppendReasoning(t: Template, thinking: bool, effort: Option<string>, out: array<char>, cap: nat, length: nat)
    returns (ok: bool, length': nat)
    requires length < cap <= out.Length
    modifies out
    ensures ok <==>
      && (NeedsEffort(t, thinking) ==>
            CEffort(t.effortFormat, EffortName(effort)).Some?
            && |CEffort(t.effortFormat, EffortName(effort)).value| < 256)
      && length + |CReasoning(t, thinking, effort)| < cap
    ensures length' < cap
    ensures ok ==> length' == length + |CReasoning(t, thinking, effort)|
    ensures ok ==> out[..length'] == old(out[..length]) + CReasoning(t, thinking, effort)
  {
    hide CMessage, Find;
    ok, length' := true, length;
    ghost var before := out[..length];
    assert before + "" == before;
    if thinking && t.effortFormat != "" {
      var name := EffortName(effort);
      var placeholder := Find(t.effortFormat, PLACEHOLDER);
      if placeholder < 0 {
        return false, length;
      }
      var reasoning := t.effortFormat[..placeholder] + name + t.effortFormat[placeholder + 8..];
      if |reasoning| >= 256 {
        return false, length;
      }
      ok, length' := AppendMessage(t.system, reasoning, out, cap, length);
    }
  }

  /** Renders into the buffer. It succeeds exactly if the arguments are acceptable and the whole
      prompt, with its NUL, fits; the buffer then holds the prompt. */
  method Render(t: Template, msgs: seq<Message>, thinking: bool, effort: Option<string>, gen: bool,
                out: array<char>, cap: nat)
    returns (ok: bool, length: nat)
    requires cap <= out.Length
    modifies out
    ensures ok <==> CAccepts(t, msgs, thinking, effort) && |CPrompt(t, msgs, thinking, effort, gen)| < cap
    ensures ok ==> length == |CPrompt(t, msgs, thinking, effort, gen)| && length < cap
    ensures ok ==> out[..length] == CPrompt(t, msgs, thinking, effort, gen)
  {
    hide CHead, CReasoning, CTurns, CEffort, KnownRoles;
    if |msgs| < 1 || cap < 1 {
      return false, 0;
    }
    if thinking && !t.supportsThinking {
      return false, 0;
    }
    for i := 0 to |msgs|
      invariant forall j :: 0 <= j < i ==> msgs[j].role.Some? && msgs[j].content.Some?
    {
      if msgs[i].role.None? || msgs[i].content.None? {
        return false, 0;
      }
    }
    ok, length := AppendHead(t, msgs, out, cap);
    if ok {
      ok, length := AppendReasoning(t, thinking, effort, out, cap, length);
    }
    if ok {
      ok, length := AppendTurns(t, msgs, out, cap, length);
    }
    if ok && gen {
      ok, length := Append(out, cap, length, if thinking then t.thinkingGeneration else t.generation);
    }
    assert !gen ==> Generation(t, thinking, gen) == "";
  }

  // ---------------------------------------------------------------- by joining a list

  lemma FlattenThree(parts: seq<string>, a: string, b: string, c: string)
    ensures Flatten(parts + [a, b, c]) == Flatten(parts) + a + b + c
  {
    hide Flatten, NoneEmpty;
    FlattenAdd(parts, a);
    FlattenAdd(parts + [a], b);
    FlattenAdd(parts + [a] + [b], c);
    assert parts + [a, b, c] == parts + [a] + [b] + [c];
  }

  /** Renders by collecting the parts of the prompt and joining them; refuses what it must refuse. */
  method PyRender(t: Template, msgs: seq<Message>, thinking: bool, effort: Option<string>, gen: bool,
                  space: char -> bool)
    returns (r: Option<string>)
    ensures r.Some? <==> PyAccepts(t, msgs, thinking)
    ensures r.Some? ==> r.value == PyPrompt(t, msgs, thinking, effort, gen, space)
  {
    if msgs == [] || (thinking && !t.supportsThinking) {
      return None;
    }
    for i := 0 to |msgs|
      invariant Complete(msgs[..i]) && KnownRoles(t, msgs[..i])
    {
      if msgs[i].role.None? || RoleOf(t, msgs[i].role.value).None? || msgs[i].content.None? {
        return None;
      }
    }
    assert msgs[..|msgs|] == msgs;
    hide Flatten, PyHead, PyReasoning, RoleOf;
    var prompt := PyStart(t, msgs, thinking, effort);
    prompt := PyMessages(t, msgs, space, prompt);
    if gen {
      FlattenAdd(prompt, if thinking then t.thinkingGeneration else t.generation);
      prompt := prompt + [if thinking then t.thinkingGeneration else t.generation];
    }
    return Some(Flatten(prompt));
  }

  method PyMessages(t: Template, msgs: seq<Message>, space: char -> bool, prompt0: seq<string>)
    returns (prompt: seq<string>)
    requires Complete(msgs) && KnownRoles(t, msgs)
    ensures Flatten(prompt) == Flatten(prompt0) + PyTurns(t, msgs, space)
  {
    hide Flatten, PyBody, PyTurns;
    ghost var start := Flatten(prompt0);
    prompt := prompt0;
    assert start + "" == start;
    NoPyTurns(t, space);
    for i := 0 to |msgs|
      invariant Flatten(prompt) == start + PyTurns(t, msgs[..i], space)
    {
      NextPyTurn(t, msgs, i, space);
      if !Skipped(t, msgs[i]) {
        var rule := RoleOf(t, msgs[i].role.value).value;
        var content := PyBody(rule, msgs[i].content.value, space);
        FlattenThree(prompt, rule.prefix, content, rule.suffix);
        Regroup(start, PyTurns(t, msgs[..i], space), rule.prefix, content, rule.suffix);
        prompt := prompt + [rule.prefix, content, rule.suffix];
      }
    }
    assert msgs[..|msgs|] == msgs;
  }

  lemma NoPyTurns(t: Template, space: char -> bool)
    ensures PyTurns(t, [], space) == ""
  {
  }

  lemma NextPyTurn(t: Template, msgs: seq<Message>, i: nat, space: char -> bool)
    requires Complete(msgs) && KnownRoles(t, msgs) && i < |msgs|
    ensures PyTurns(t, msgs[..i + 1], space) ==
      if Skipped(t, msgs[i]) then PyTurns(t, msgs[..i], space)
      else PyTurns(t, msgs[..i], space) + PyMessage(RoleOf(t, msgs[i].role.value).value, msgs[i].content.value, space)
  {
    hide PyMessage;
    assert msgs[..i + 1][..i] == msgs[..i];
    assert PyTurns(t, msgs[..i], space) + "" == PyTurns(t, msgs[..i], space);
  }

  lemma Regroup(a: string, b: string, c: string, d: string, e: string)
    ensures a + b + c + d + e == a + (b + (c + d + e))
  {
    assert a + b + c + d + e == a + (b + (c + d + e));
  }

  lemma TwoParts(a: string, c: string, d: string, e: string)
    ensures a + c + d + e == a + (c + d + e) && a + "" == a
  {
    assert a + c + d + e == a + (c + d + e);
  }

  method PyStart(t: Template, msgs: seq<Message>, thinking: bool, effort: Option<string>) returns (prompt: seq<string>)
    requires Complete(msgs) && msgs != []
    ensures Flatten(prompt) == PyHead(t, msgs) + PyReasoning(t, thinking, effort)
  {
    hide Flatten, Joined, SystemContents, PyEffort;
    prompt := [t.bos];
    FlattenOne(t.bos);
    TwoParts(t.bos, t.system.prefix, t.defaultSystem, t.system.suffix);
    if t.prefixMode {
      FlattenAdd(prompt, Joined(t.separator, SystemContents(msgs)));
      prompt := prompt + [Joined(t.separator, SystemContents(msgs))];
    } else if !IsSystem(msgs[0].role.value) && t.defaultSystem != "" {
      FlattenThree(prompt, t.system.prefix, t.defaultSystem, t.system.suffix);
      prompt := prompt + [t.system.prefix, t.defaultSystem, t.system.suffix];
    }
    assert Flatten(prompt) == PyHead(t, msgs);
    hide PyHead;
    var text := PyEffort(t.effortFormat, EffortName(effort));
    TwoParts(Flatten(prompt), t.system.prefix, text, t.system.suffix);
    if thinking && t.effortFormat != "" {
      FlattenThree(prompt, t.system.prefix, text, t.system.suffix);
      prompt := prompt + [t.system.prefix, text, t.system.suffix];
    }
  }
}
