/** What the two renderers write, told message by message and place by place, without the functions
    that join the parts. */
module ChatLaws {
  import opened ChatRender
  import opened ChatTemplate
  import opened Occurrences
  import opened Probing

  // ---------------------------------------------------------------- what comes after the marker

  ghost predicate FirstAt(text: string, marker: string, i: nat) {
    At(text, marker, i) && forall j: nat :: At(text, marker, j) ==> i <= j
  }

  ghost predicate LastAt(text: string, marker: string, i: nat) {
    At(text, marker, i) && forall j: nat :: At(text, marker, j) ==> j <= i
  }

  /** Where the scan finds the next marker does not depend on the text before its cursor. */
  lemma FindFromTail(text: string, k: nat, marker: string, c: nat)
    requires k <= |text| && c <= |text| - k
    ensures var f, g := FindFrom(text, marker, k + c), FindFrom(text[k..], marker, c);
      if g < 0 then f == -1 else f == k + g
  {
    hide FindFrom;
    assert text == text[..k] + text[k..];
    var f, g := FindFrom(text, marker, k + c), FindFrom(text[k..], marker, c);
    if g >= 0 {
      AtFits(text[k..], marker, g);
      AtTail(text[..k], text[k..], marker, g);
    }
    if f >= 0 {
      AtFits(text, marker, f);
      AtTail(text[..k], text[k..], marker, f - k);
    }
  }

  lemma {:induction false} LastForwardTail(text: string, k: nat, marker: string, c: nat, last: nat)
    requires marker != "" && k <= |text| && c <= |text| - k
    ensures LastForward(text, marker, k + c, k + last) == k + LastForward(text[k..], marker, c, last)
    decreases |text| - c
  {
    hide FindFrom, At;
    FindFromTail(text, k, marker, c);
    var g := FindFrom(text[k..], marker, c);
    if g >= 0 {
      AtFits(text[k..], marker, g);
      LastForwardTail(text, k, marker, g + |marker|, g);
      assert k + (g + |marker|) == k + g + |marker|;
    }
  }

  /** Behind a match that ends at `k`: the last match of the rest, or else this one. */
  lemma ScanBehind(text: string, marker: string, k: nat, i: nat)
    requires marker != "" && k <= |text| && k == i + |marker|
    ensures var r := LastForward(text[k..], marker, 0, -1);
      LastForward(text, marker, k, i) == if r < 0 then i else k + r
  {
    hide *;
    var rest := text[k..];
    FindFromTail(text, k, marker, 0);
    ForwardStep(text, marker, k, i);
    ForwardStep(rest, marker, 0, -1);
    var g := FindFrom(rest, marker, 0);
    if g >= 0 {
      LastForwardTail(text, k, marker, g + |marker|, g);
      assert k + (g + |marker|) == k + g + |marker|;
    }
  }

  lemma AfterScan(text: string, marker: string)
    requires marker != ""
    ensures var f := LastForward(text, marker, 0, -1);
      f < 0 || f + |marker| <= |text|
    ensures var f := LastForward(text, marker, 0, -1);
      AfterForward(text, marker) == if f < 0 then text else text[f + |marker|..]
  {
    hide LastForward;
  }

  lemma FirstIsFound(text: string, marker: string, i: nat)
    requires FirstAt(text, marker, i)
    ensures i + |marker| <= |text| && FindFrom(text, marker, 0) == i
  {
    AtFits(text, marker, i);
    hide At, FindFrom;
  }

  /** The scan forward drops the text up to the end of the first marker and goes on with the rest;
      a text without the marker it leaves alone. */
  lemma ForwardGoesOn(text: string, marker: string, i: nat)
    requires marker != "" && FirstAt(text, marker, i)
    ensures i + |marker| <= |text| && AfterForward(text, marker) == AfterForward(text[i + |marker|..], marker)
  {
    hide *;
    FirstIsFound(text, marker, i);
    var k := i + |marker|;
    ForwardStep(text, marker, 0, -1);
    ScanBehind(text, marker, k, i);
    AfterScan(text, marker);
    AfterScan(text[k..], marker);
    var r := LastForward(text[k..], marker, 0, -1);
    if r >= 0 {
      assert text[k..][r + |marker|..] == text[k + r + |marker|..];
    }
  }

  lemma ForwardKeeps(text: string, marker: string)
    requires marker != "" && !Occurs(text, marker)
    ensures AfterForward(text, marker) == text
  {
    AfterForwardOf(text, marker);
  }

  /** Splitting once from the right drops the text up to the end of the last marker. */
  lemma AfterTheLast(text: string, marker: string, i: nat)
    requires LastAt(text, marker, i)
    ensures i + |marker| <= |text| && AfterLast(text, marker) == text[i + |marker|..]
  {
    AtFits(text, marker, i);
    hide At;
    var f := LastFrom(text, marker, |text|);
    assert i <= f;
  }

  lemma OccursThere(text: string, marker: string, i: int)
    requires i >= 0 ==> At(text, marker, i)
    ensures i >= 0 ==> Occurs(text, marker)
  {
    if i >= 0 { OccursIntro(text, marker, i); }
  }

  lemma LastKeeps(text: string, marker: string)
    requires !Occurs(text, marker)
    ensures AfterLast(text, marker) == text
  {
    OccursThere(text, marker, LastFrom(text, marker, |text|));
  }

  // ---------------------------------------------------------------- trimming

  lemma CSpaces(c: char)
    ensures CSpace(c) <==> c in {' ', '\t', '\n', 11 as char, 12 as char, '\r'}
  {
  }

  ghost predicate AllSpace(s: string, space: char -> bool) {
    forall c :: c in s ==> space(c)
  }

  lemma {:induction false} LeftTrimmed(s: string, space: char -> bool) returns (a: string)
    ensures s == a + TrimLeft(s, space) && AllSpace(a, space)
  {
    a := "";
    if s != "" && space(s[0]) {
      a := LeftTrimmed(s[1..], space);
      a := [s[0]] + a;
    }
  }

  lemma {:induction false} RightTrimmed(s: string, space: char -> bool) returns (b: string)
    ensures s == TrimRight(s, space) + b && AllSpace(b, space)
  {
    b := "";
    if s != "" && space(s[|s| - 1]) {
      b := RightTrimmed(s[..|s| - 1], space);
      b := b + [s[|s| - 1]];
      assert s == s[..|s| - 1] + [s[|s| - 1]];
    }
  }

  /** Trimming cuts white space off both ends until none is left there. */
  lemma Trimmed(s: string, space: char -> bool) returns (a: string, b: string)
    ensures s == a + Trim(s, space) + b
    ensures AllSpace(a, space) && AllSpace(b, space) && Bare(Trim(s, space), space)
  {
    TrimIsBare(s, space);
    a := LeftTrimmed(s, space);
    b := RightTrimmed(TrimLeft(s, space), space);
  }

  /** Nothing else is a text cut off so. */
  lemma {:induction false} TrimmedIs(a: string, s: string, b: string, space: char -> bool)
    requires AllSpace(a, space) && AllSpace(b, space) && Bare(s, space) && s != ""
    ensures Trim(a + s + b, space) == s
  {
    DropLeft(a, s + b, space);
    assert a + s + b == a + (s + b);
    DropRight(s, b, space);
    hide TrimLeft, TrimRight;
    assert (s + b)[0] == s[0];
  }

  lemma {:induction false} DropLeft(a: string, s: string, space: char -> bool)
    requires AllSpace(a, space) && s != "" && !space(s[0])
    ensures TrimLeft(a + s, space) == s
  {
    if a == "" {
      assert a + s == s;
    } else {
      assert a[0] in a && (a + s)[1..] == a[1..] + s;
      assert forall c :: c in a[1..] ==> c in a;
      DropLeft(a[1..], s, space);
    }
  }

  lemma {:induction false} DropRight(s: string, b: string, space: char -> bool)
    requires AllSpace(b, space) && s != "" && !space(s[|s| - 1])
    ensures TrimRight(s + b, space) == s
  {
    if b == "" {
      assert s + b == s;
    } else {
      var n := |b| - 1;
      assert b[n] in b && (s + b)[..|s + b| - 1] == s + b[..n];
      assert forall c :: c in b[..n] ==> c in b;
      DropRight(s, b[..n], space);
    }
  }

  // ---------------------------------------------------------------- the kept part of a content

  /** Without a marker in it the whole content is kept, trimmed if the rule says so. */
  lemma BodiesWithout(rule: Role, content: string, space: char -> bool)
    requires rule.stripAfter == "" || !Occurs(content, rule.stripAfter)
    ensures CBody(rule, content) == if rule.trim then Trim(content, CSpace) else content
    ensures PyBody(rule, content, space) == if rule.trim then Trim(content, space) else content
  {
    if rule.stripAfter != "" {
      ForwardKeeps(content, rule.stripAfter);
      LastKeeps(content, rule.stripAfter);
    }
    hide AfterForward, AfterLast, Occurs, Trim;
  }

  lemma TailAt(text: string, k: nat, marker: string, j: nat)
    requires k <= |text|
    ensures At(text[k..], marker, j) ==> At(text, marker, k + j)
  {
    if At(text[k..], marker, j) {
      AtTail(text[..k], text[k..], marker, j);
      assert text == text[..k] + text[k..];
    }
  }

  lemma NoneBehind(text: string, k: nat, marker: string, i: nat)
    requires LastAt(text, marker, i) && i < k <= |text|
    ensures !Occurs(text[k..], marker)
  {
    hide At;
    forall j: nat ensures At(text[k..], marker, j) ==> At(text, marker, k + j) {
      TailAt(text, k, marker, j);
    }
  }

  /** With one marker in it what follows is kept, and trimmed after that. */
  lemma BodiesAfter(rule: Role, content: string, i: nat, space: char -> bool)
    requires rule.stripAfter != "" && FirstAt(content, rule.stripAfter, i) && LastAt(content, rule.stripAfter, i)
    ensures i + |rule.stripAfter| <= |content|
    ensures var rest := content[i + |rule.stripAfter|..];
      && CBody(rule, content) == (if rule.trim then Trim(rest, CSpace) else rest)
      && PyBody(rule, content, space) == (if rule.trim then Trim(rest, space) else rest)
  {
    var m := rule.stripAfter;
    AfterTheLast(content, m, i);
    ForwardGoesOn(content, m, i);
    NoneBehind(content, i + |m|, m, i);
    ForwardKeeps(content[i + |m|..], m);
    hide AfterForward, AfterLast, Trim;
  }

  // ---------------------------------------------------------------- one more message

  function Says(role: string, content: string): (m: Message)
    ensures m.role == Some(role) && m.content == Some(content)
  {
    Message(Some(role), Some(content))
  }

  const SYSTEM_ROLES := ["system", "developer"]

  /** The text grows by what a rule puts around a body. */
  predicate Grows(before: string, after: string, rule: Role, body: string) {
    after == before + rule.prefix + body + rule.suffix
  }

  lemma RolesByName(t: Template, role: string)
    ensures RoleOf(t, role) ==
      match role
      case "system" => Some(t.system)
      case "developer" => Some(t.developer)
      case "user" => Some(t.user)
      case "assistant" => Some(t.assistant)
      case _ => None
  {
  }

  lemma Grouped(a: string, b: string, c: string, d: string)
    ensures a + b + c + d == a + (b + c + d) && a + "" == a
  {
    assert a + b + c + d == a + (b + c + d);
  }

  lemma KnownMore(t: Template, msgs: seq<Message>, m: Message)
    requires Complete(msgs) && KnownRoles(t, msgs) && m.role.Some? && m.content.Some?
    ensures Complete(msgs + [m])
    ensures KnownRoles(t, msgs + [m]) <==> m.role.value in ["system", "developer", "user", "assistant"]
  {
    var more := msgs + [m];
    assert more[|msgs|] == m;
    RolesByName(t, m.role.value);
    hide RoleOf;
    assert forall i :: 0 <= i < |msgs| ==> more[i] == msgs[i];
  }

  lemma TurnsStep(t: Template, msgs: seq<Message>, m: Message, space: char -> bool)
    requires Complete(msgs + [m]) && KnownRoles(t, msgs + [m]) && Complete(msgs) && KnownRoles(t, msgs)
    ensures m.role.Some? && m.content.Some? && RoleOf(t, m.role.value).Some?
    ensures var (role, content) := (m.role.value, m.content.value);
      var rule := RoleOf(t, role).value;
      if t.prefixMode && role in SYSTEM_ROLES
      then CTurns(t, msgs + [m]) == CTurns(t, msgs) && PyTurns(t, msgs + [m], space) == PyTurns(t, msgs, space)
      else Grows(CTurns(t, msgs), CTurns(t, msgs + [m]), rule, CBody(rule, content))
           && Grows(PyTurns(t, msgs, space), PyTurns(t, msgs + [m], space), rule, PyBody(rule, content, space))
  {
    var more := msgs + [m];
    assert more[..|msgs|] == msgs && more[|msgs|] == m;
    hide CBody, PyBody;
    var rule := RoleOf(t, m.role.value).value;
    Grouped(CTurns(t, msgs), rule.prefix, CBody(rule, m.content.value), rule.suffix);
    Grouped(PyTurns(t, msgs, space), rule.prefix, PyBody(rule, m.content.value, space), rule.suffix);
  }

  /** The rule for each role. */
  function RuleFor(t: Template, role: string): Role {
    match role
    case "system" => t.system
    case "developer" => t.developer
    case "user" => t.user
    case _ => t.assistant
  }

  lemma RulesAre(t: Template)
    ensures RuleFor(t, "system") == t.system && RuleFor(t, "developer") == t.developer
    ensures RuleFor(t, "user") == t.user && RuleFor(t, "assistant") == t.assistant
  {
  }

  /** Whose prefix and suffix stand around a message: those of the role it is written in. A system
      or developer message is no turn of its own when such messages are put in front. */
  lemma TurnAdds(t: Template, msgs: seq<Message>, role: string, content: string, space: char -> bool)
    requires Complete(msgs) && KnownRoles(t, msgs)
    ensures var more := msgs + [Says(role, content)];
      && Complete(more)
      && (KnownRoles(t, more) <==> role in ["system", "developer", "user", "assistant"])
      && (role == "user" ==>
            && Grows(CTurns(t, msgs), CTurns(t, more), t.user, CBody(t.user, content))
            && Grows(PyTurns(t, msgs, space), PyTurns(t, more, space), t.user, PyBody(t.user, content, space)))
      && (role == "assistant" ==>
            && Grows(CTurns(t, msgs), CTurns(t, more), t.assistant, CBody(t.assistant, content))
            && Grows(PyTurns(t, msgs, space), PyTurns(t, more, space), t.assistant,
                     PyBody(t.assistant, content, space)))
      && (role == "system" && !t.prefixMode ==>
            && Grows(CTurns(t, msgs), CTurns(t, more), t.system, CBody(t.system, content))
            && Grows(PyTurns(t, msgs, space), PyTurns(t, more, space), t.system, PyBody(t.system, content, space)))
      && (role == "developer" && !t.prefixMode ==>
            && Grows(CTurns(t, msgs), CTurns(t, more), t.developer, CBody(t.developer, content))
            && Grows(PyTurns(t, msgs, space), PyTurns(t, more, space), t.developer,
                     PyBody(t.developer, content, space)))
      && (role in ["system", "developer"] && t.prefixMode ==>
            CTurns(t, more) == CTurns(t, msgs) && PyTurns(t, more, space) == PyTurns(t, msgs, space))
  {
    hide CTurns, PyTurns, CBody, PyBody, RoleOf, Grows;
    KnownMore(t, msgs, Says(role, content));
    RolesByName(t, role);
    if KnownRoles(t, msgs + [Says(role, content)]) {
      TurnsStep(t, msgs, Says(role, content), space);
    }
  }

  // ---------------------------------------------------------------- the texts in front

  /** The system and developer messages put in front are joined in order by the separator. */
  lemma FrontAdds(sep: string, msgs: seq<Message>, role: string, content: string)
    requires Complete(msgs)
    ensures var more := msgs + [Says(role, content)];
      && Complete(more)
      && var (before, after) := (Joined(sep, SystemContents(msgs)), Joined(sep, SystemContents(more)));
         if role !in ["system", "developer"] then after == before
         else if forall m :: m in msgs ==> m.role.value !in ["system", "developer"] then after == content
         else after == before + sep + content
  {
    var m := Says(role, content);
    var more := msgs + [m];
    assert more[..|msgs|] == msgs && more[|msgs|] == m;
    assert forall i :: 0 <= i < |msgs| ==> more[i] == msgs[i];
    var parts := SystemContents(msgs);
    assert SystemContents(more) == parts + if role in ["system", "developer"] then [content] else [];
    hide *;
    NoneInFront(msgs);
    JoinedAdds(sep, parts, content);
    assert parts + [] == parts;
  }

  lemma JoinedAdds(sep: string, parts: seq<string>, content: string)
    ensures Joined(sep, parts + [content]) == if parts == [] then content else Joined(sep, parts) + sep + content
  {
    assert (parts + [content])[..|parts|] == parts;
    assert parts == [] ==> parts + [content] == [content];
  }

  lemma {:induction false} NoneInFront(msgs: seq<Message>)
    requires Complete(msgs)
    ensures SystemContents(msgs) == [] <==> forall m :: m in msgs ==> m.role.value !in ["system", "developer"]
  {
    if msgs != [] {
      var n := |msgs| - 1;
      NoneInFront(msgs[..n]);
      assert msgs == msgs[..n] + [msgs[n]];
    }
  }

  // ---------------------------------------------------------------- the effort line

  lemma EffortNames(effort: Option<string>)
    ensures EffortName(effort) == match effort case Some("high") => "High" case _ => "Max"
  {
  }

  lemma EndsOtherwise(d: nat)
    requires 0 < d < |PLACEHOLDER|
    ensures PLACEHOLDER[..d][0] != PLACEHOLDER[8 - d..][0]
  {
  }

  lemma PlaceholderUnbordered()
    ensures Unbordered(PLACEHOLDER)
  {
    forall d | 0 < d < |PLACEHOLDER| ensures !Border(PLACEHOLDER, d) {
      EndsOtherwise(d);
    }
  }

  lemma EarlierIsInHead(a: string, b: string, i: nat)
    requires At(a + PLACEHOLDER + b, PLACEHOLDER, i) && i < |a|
    ensures Occurs(a, PLACEHOLDER)
  {
    var f := a + PLACEHOLDER + b;
    assert f[|a|..|a| + 8] == PLACEHOLDER;
    PlaceholderUnbordered();
    NoOverlap(f, PLACEHOLDER, i, |a|);
    assert f == a + (PLACEHOLDER + b);
    AtHead(a, PLACEHOLDER + b, PLACEHOLDER, i);
    OccursIntro(a, PLACEHOLDER, i);
  }

  lemma FirstPlaceholder(a: string, b: string)
    ensures var f := a + PLACEHOLDER + b;
      && f[..|a|] == a && f[|a| + 8..] == b
      && (!Occurs(a, PLACEHOLDER) ==> Find(f, PLACEHOLDER) == |a|)
  {
    var f := a + PLACEHOLDER + b;
    assert f[|a|..|a| + 8] == PLACEHOLDER;
    assert At(f, PLACEHOLDER, |a|);
    hide Occurs, At;
    forall i: nat | i < |a| ensures At(f, PLACEHOLDER, i) ==> Occurs(a, PLACEHOLDER) {
      if At(f, PLACEHOLDER, i) { EarlierIsInHead(a, b, i); }
    }
  }

  /** The name is written where the first placeholder stands; the one renderer leaves what follows
      as it is, the other goes on in it. */
  lemma EffortReplaces(a: string, b: string, name: string)
    requires !Occurs(a, PLACEHOLDER)
    ensures CEffort(a + PLACEHOLDER + b, name) == Some(a + name + b)
    ensures PyEffort(a + PLACEHOLDER + b, name) == a + name + PyEffort(b, name)
    ensures CEffort(a, name) == None && PyEffort(a, name) == a
  {
    FirstPlaceholder(a, b);
    hide Find, Occurs;
  }

  // ---------------------------------------------------------------- the whole prompt

  lemma HeadInFront(t: Template, msgs: seq<Message>)
    requires Complete(msgs) && msgs != [] && t.prefixMode
    ensures CHead(t, msgs) == PyHead(t, msgs) == t.bos + Joined(t.separator, SystemContents(msgs))
    ensures (forall m :: m in msgs ==> m.role.value !in ["system", "developer"]) ==>
      Joined(t.separator, SystemContents(msgs)) == ""
  {
    NoneInFront(msgs);
    hide SystemContents;
  }

  lemma HeadByFirst(t: Template, msgs: seq<Message>, more: seq<Message>)
    requires Complete(msgs) && Complete(more) && msgs != [] && more != [] && !t.prefixMode && msgs[0] == more[0]
    ensures CHead(t, more) == CHead(t, msgs) && PyHead(t, more) == PyHead(t, msgs)
  {
    hide CMessage;
  }

  lemma Unseparated(a: string, b: string, sep: string, c: string)
    ensures a + (b + sep + c) == a + b + sep + c && a + "" + "" + c == a + c
  {
    assert a + (b + sep + c) == a + b + sep + c;
  }

  /** Only a system or developer message to be put in front changes what is in front. */
  lemma HeadAdds(t: Template, msgs: seq<Message>, role: string, content: string)
    requires Complete(msgs) && msgs != []
    ensures var more := msgs + [Says(role, content)];
      var none := forall m :: m in msgs ==> m.role.value !in ["system", "developer"];
      && Complete(more)
      && if t.prefixMode && role in ["system", "developer"]
         then CHead(t, more) == CHead(t, msgs) + (if none then "" else t.separator) + content
              && PyHead(t, more) == PyHead(t, msgs) + (if none then "" else t.separator) + content
         else CHead(t, more) == CHead(t, msgs) && PyHead(t, more) == PyHead(t, msgs)
  {
    hide *;
    var more := msgs + [Says(role, content)];
    assert more[0] == msgs[0];
    FrontAdds(t.separator, msgs, role, content);
    if t.prefixMode {
      HeadInFront(t, msgs);
      HeadInFront(t, more);
      var front := Joined(t.separator, SystemContents(msgs));
      Unseparated(t.bos, front, t.separator, content);
    } else {
      HeadByFirst(t, msgs, more);
    }
  }

  lemma PromptsSplit(t: Template, msgs: seq<Message>, thinking: bool, effort: Option<string>, space: char -> bool)
    requires CAccepts(t, msgs, thinking, effort)
    ensures PyAccepts(t, msgs, thinking)
    ensures CPrompt(t, msgs, thinking, effort, false)
      == CHead(t, msgs) + CReasoning(t, thinking, effort) + CTurns(t, msgs)
    ensures PyPrompt(t, msgs, thinking, effort, false, space)
      == PyHead(t, msgs) + PyReasoning(t, thinking, effort) + PyTurns(t, msgs, space)
  {
    hide CHead, PyHead, CReasoning, PyReasoning, CTurns, PyTurns, CEffort;
    NothingMore(CHead(t, msgs) + CReasoning(t, thinking, effort), CTurns(t, msgs));
    NothingMore(PyHead(t, msgs) + PyReasoning(t, thinking, effort), PyTurns(t, msgs, space));
  }

  lemma NothingMore(a: string, b: string)
    ensures a + b + "" == a + b
  {
  }

  lemma GrowsBehind(h: string, before: string, after: string, rule: Role, body: string)
    requires Grows(before, after, rule, body)
    ensures Grows(h + before, h + after, rule, body)
  {
    assert h + (before + rule.prefix + body + rule.suffix) == h + before + rule.prefix + body + rule.suffix;
  }

  lemma AcceptsMore(t: Template, msgs: seq<Message>, m: Message, thinking: bool, effort: Option<string>)
    requires CAccepts(t, msgs, thinking, effort) && Complete(msgs + [m]) && KnownRoles(t, msgs + [m])
    ensures CAccepts(t, msgs + [m], thinking, effort) && Complete(msgs) && KnownRoles(t, msgs)
  {
    hide KnownRoles, CEffort;
  }

  /** What is accepted: known roles and contents throughout, thinking only where it is supported, and
      a format that has the placeholder and, with the name in its place, fewer than 256 characters. */
  lemma AcceptsIff(t: Template, msgs: seq<Message>, thinking: bool, effort: Option<string>)
    ensures PyAccepts(t, msgs, thinking) <==>
      && msgs != [] && !(thinking && !t.supportsThinking)
      && forall m :: m in msgs ==>
           && m.role in [Some("system"), Some("developer"), Some("user"), Some("assistant")] && m.content != None
    ensures CAccepts(t, msgs, thinking, effort) <==>
      && PyAccepts(t, msgs, thinking)
      && (thinking && t.effortFormat != "" ==>
            && Occurs(t.effortFormat, "{effort}")
            && |t.effortFormat| < if effort == Some("high") then 260 else 261)
  {
    hide Occurs, At;
    forall m | m in msgs && m.role.Some?
      ensures RoleOf(t, m.role.value).Some? <==> m.role.value in ["system", "developer", "user", "assistant"]
    {
      RolesByName(t, m.role.value);
    }
    hide RoleOf;
    var f := Find(t.effortFormat, PLACEHOLDER);
    if f >= 0 { AtFits(t.effortFormat, PLACEHOLDER, f); }
    EffortNames(effort);
  }

  lemma RuleIs(t: Template, role: string)
    requires role in ["system", "developer", "user", "assistant"]
    ensures RoleOf(t, role) == Some(RuleFor(t, role))
    ensures role in SYSTEM_ROLES <==> role in ["system", "developer"]
  {
  }

  lemma TurnGrows(t: Template, msgs: seq<Message>, role: string, content: string, space: char -> bool)
    requires Complete(msgs) && KnownRoles(t, msgs)
    requires role in ["system", "developer", "user", "assistant"] && !(t.prefixMode && role in SYSTEM_ROLES)
    ensures var more := msgs + [Says(role, content)];
      var rule := RuleFor(t, role);
      && Complete(more) && KnownRoles(t, more)
      && Grows(CTurns(t, msgs), CTurns(t, more), rule, CBody(rule, content))
      && Grows(PyTurns(t, msgs, space), PyTurns(t, more, space), rule, PyBody(rule, content, space))
  {
    hide *;
    var m := Says(role, content);
    KnownMore(t, msgs, m);
    TurnsStep(t, msgs, m, space);
    RuleIs(t, role);
  }

  /** The prompt of a longer conversation is that of the shorter one with a turn added. */
  lemma PromptGrows(t: Template, msgs: seq<Message>, role: string, content: string, thinking: bool,
                    effort: Option<string>, space: char -> bool)
    requires CAccepts(t, msgs, thinking, effort)
    requires role in ["user", "assistant"] || (role in ["system", "developer"] && !t.prefixMode)
    ensures var more := msgs + [Says(role, content)];
      var rule := RuleFor(t, role);
      && CAccepts(t, more, thinking, effort) && PyAccepts(t, msgs, thinking) && PyAccepts(t, more, thinking)
      && Grows(CPrompt(t, msgs, thinking, effort, false), CPrompt(t, more, thinking, effort, false), rule,
               CBody(rule, content))
      && Grows(PyPrompt(t, msgs, thinking, effort, false, space), PyPrompt(t, more, thinking, effort, false, space),
               rule, PyBody(rule, content, space))
  {
    var more := msgs + [Says(role, content)];
    var rule := RuleFor(t, role);
    PromptsSplit(t, msgs, thinking, effort, space);
    assert Complete(msgs) && KnownRoles(t, msgs) && msgs != [];
    hide *;
    RuleIs(t, role);
    TurnGrows(t, msgs, role, content, space);
    AcceptsMore(t, msgs, Says(role, content), thinking, effort);
    PromptsSplit(t, more, thinking, effort, space);
    HeadAdds(t, msgs, role, content);
    GrowsBehind(CHead(t, msgs) + CReasoning(t, thinking, effort), CTurns(t, msgs), CTurns(t, more), rule,
                CBody(rule, content));
    GrowsBehind(PyHead(t, msgs) + PyReasoning(t, thinking, effort), PyTurns(t, msgs, space), PyTurns(t, more, space),
                rule, PyBody(rule, content, space));
  }

  /** Or, for a system message put in front, that message is inserted behind those already there. */
  lemma FrontGrows(t: Template, msgs: seq<Message>, role: string, content: string, thinking: bool,
                   effort: Option<string>, space: char -> bool)
    returns (front: string, c: string, py: string)
    requires CAccepts(t, msgs, thinking, effort) && role in ["system", "developer"] && t.prefixMode
    ensures var more := msgs + [Says(role, content)];
      var none := forall m :: m in msgs ==> m.role.value !in ["system", "developer"];
      var sep := if none then "" else t.separator;
      && CAccepts(t, more, thinking, effort) && PyAccepts(t, msgs, thinking) && PyAccepts(t, more, thinking)
      && CPrompt(t, msgs, thinking, effort, false) == front + c
      && CPrompt(t, more, thinking, effort, false) == front + sep + content + c
      && PyPrompt(t, msgs, thinking, effort, false, space) == front + py
      && PyPrompt(t, more, thinking, effort, false, space) == front + sep + content + py
  {
    var more := msgs + [Says(role, content)];
    PromptsSplit(t, msgs, thinking, effort, space);
    assert Complete(msgs) && KnownRoles(t, msgs) && msgs != [];
    assert CHead(t, msgs) == PyHead(t, msgs);
    hide *;
    TurnAdds(t, msgs, role, content, space);
    AcceptsMore(t, msgs, Says(role, content), thinking, effort);
    PromptsSplit(t, more, thinking, effort, space);
    HeadAdds(t, msgs, role, content);
    front := CHead(t, msgs);
    c := CReasoning(t, thinking, effort) + CTurns(t, msgs);
    py := PyReasoning(t, thinking, effort) + PyTurns(t, msgs, space);
    Shifted(front, CReasoning(t, thinking, effort), CTurns(t, msgs));
    Shifted(front, PyReasoning(t, thinking, effort), PyTurns(t, msgs, space));
    Shifted(CHead(t, more), CReasoning(t, thinking, effort), CTurns(t, msgs));
    Shifted(CHead(t, more), PyReasoning(t, thinking, effort), PyTurns(t, msgs, space));
  }

  lemma Shifted(a: string, b: string, c: string)
    ensures a + b + c == a + (b + c)
  {
    assert a + b + c == a + (b + c);
  }

  /** A reply is asked for by one of two texts at the very end. */
  lemma GenerationAdds(t: Template, msgs: seq<Message>, thinking: bool, effort: Option<string>, space: char -> bool)
    requires CAccepts(t, msgs, thinking, effort)
    ensures var last := if thinking then t.thinkingGeneration else t.generation;
      && PyAccepts(t, msgs, thinking)
      && CPrompt(t, msgs, thinking, effort, true) == CPrompt(t, msgs, thinking, effort, false) + last
      && PyPrompt(t, msgs, thinking, effort, true, space) == PyPrompt(t, msgs, thinking, effort, false, space) + last
  {
    hide CHead, PyHead, CReasoning, PyReasoning, CTurns, PyTurns, CEffort;
    Grouped(CHead(t, msgs) + CReasoning(t, thinking, effort), CTurns(t, msgs), "", "");
    Grouped(PyHead(t, msgs) + PyReasoning(t, thinking, effort), PyTurns(t, msgs, space), "", "");
  }

  lemma AcceptsOne(t: Template, role: string, content: string, effort: Option<string>)
    requires role in ["system", "developer", "user", "assistant"]
    ensures CAccepts(t, [Says(role, content)], false, effort) && PyAccepts(t, [Says(role, content)], false)
  {
    RolesByName(t, role);
  }

  lemma PromptWithout(t: Template, msgs: seq<Message>, effort: Option<string>, space: char -> bool)
    requires CAccepts(t, msgs, false, effort)
    ensures PyAccepts(t, msgs, false)
    ensures CPrompt(t, msgs, false, effort, false) == CHead(t, msgs) + CTurns(t, msgs)
    ensures PyPrompt(t, msgs, false, effort, false, space) == PyHead(t, msgs) + PyTurns(t, msgs, space)
  {
    PromptsSplit(t, msgs, false, effort, space);
    hide CHead, PyHead, CTurns, PyTurns, CPrompt, PyPrompt;
    assert CHead(t, msgs) + "" == CHead(t, msgs) && PyHead(t, msgs) + "" == PyHead(t, msgs);
  }

  lemma HeadOfOne(t: Template, role: string, content: string)
    ensures var one := [Says(role, content)];
      && Complete(one)
      && (if role in ["system", "developer"] && t.prefixMode then CHead(t, one) == PyHead(t, one) == t.bos + content
          else if role in ["system", "developer"] || t.prefixMode || t.defaultSystem == ""
          then CHead(t, one) == PyHead(t, one) == t.bos
          else Grows(t.bos, CHead(t, one), t.system, CBody(t.system, t.defaultSystem))
               && Grows(t.bos, PyHead(t, one), t.system, t.defaultSystem))
  {
    var one := [Says(role, content)];
    assert [] + one == one && one[0].role.value == role;
    FrontAdds(t.separator, [], role, content);
    assert SystemContents([]) == [] && Joined(t.separator, []) == "";
    hide CBody, SystemContents, Joined;
    assert t.bos + "" == t.bos;
    Grouped(t.bos, t.system.prefix, CBody(t.system, t.defaultSystem), t.system.suffix);
    Grouped(t.bos, t.system.prefix, t.defaultSystem, t.system.suffix);
  }

  lemma TurnOfOne(t: Template, role: string, content: string, space: char -> bool)
    requires role in ["system", "developer", "user", "assistant"]
    ensures var one := [Says(role, content)];
      var rule := RuleFor(t, role);
      && Complete(one) && KnownRoles(t, one)
      && if role in ["system", "developer"] && t.prefixMode then CTurns(t, one) == PyTurns(t, one, space) == ""
         else Grows("", CTurns(t, one), rule, CBody(rule, content))
              && Grows("", PyTurns(t, one, space), rule, PyBody(rule, content, space))
  {
    var one := [Says(role, content)];
    assert [] + one == one;
    assert CTurns(t, []) == "" && PyTurns(t, [], space) == "";
    hide CTurns, PyTurns, CBody, PyBody, KnownRoles, Grows, RoleOf;
    assert KnownRoles(t, []) by { NoRoles(t); }
    TurnAdds(t, [], role, content, space);
  }

  lemma NoRoles(t: Template)
    ensures KnownRoles(t, [])
  {
  }

  lemma GrowsFrom(h: string, turns: string, rule: Role, body: string)
    requires Grows("", turns, rule, body)
    ensures Grows(h, h + turns, rule, body)
  {
    assert "" + rule.prefix == rule.prefix;
    Grouped(h, rule.prefix, body, rule.suffix);
  }

  /** Where a conversation starts. A first message of the system's is in front as it stands, or is
      the first turn; before any other the default system text has a turn of its own, unless system
      messages go in front or there is no such text. */
  lemma PromptOfOne(t: Template, role: string, content: string, effort: Option<string>, space: char -> bool)
    requires role in ["system", "developer", "user", "assistant"]
    ensures var one := [Says(role, content)];
      var rule := RuleFor(t, role);
      && CAccepts(t, one, false, effort) && PyAccepts(t, one, false)
      && var (c, py) := (CPrompt(t, one, false, effort, false), PyPrompt(t, one, false, effort, false, space));
         if role in ["system", "developer"] && t.prefixMode then c == py == t.bos + content
         else if role in ["system", "developer"] || t.prefixMode || t.defaultSystem == ""
         then Grows(t.bos, c, rule, CBody(rule, content)) && Grows(t.bos, py, rule, PyBody(rule, content, space))
         else exists ch: string, ph: string ::
           && Grows(t.bos, ch, t.system, CBody(t.system, t.defaultSystem)) && Grows(ch, c, rule, CBody(rule, content))
           && Grows(t.bos, ph, t.system, t.defaultSystem) && Grows(ph, py, rule, PyBody(rule, content, space))
  {
    hide *;
    var one := [Says(role, content)];
    var rule := RuleFor(t, role);
    AcceptsOne(t, role, content, effort);
    PromptWithout(t, one, effort, space);
    HeadOfOne(t, role, content);
    TurnOfOne(t, role, content, space);
    if role in ["system", "developer"] && t.prefixMode {
      assert t.bos + content + "" == t.bos + content;
    } else {
      GrowsFrom(CHead(t, one), CTurns(t, one), rule, CBody(rule, content));
      GrowsFrom(PyHead(t, one), PyTurns(t, one, space), rule, PyBody(rule, content, space));
    }
  }

  lemma PromptWith(t: Template, msgs: seq<Message>, effort: Option<string>, line: string, space: char -> bool)
    requires CAccepts(t, msgs, true, effort) && t.effortFormat != ""
    requires CEffort(t.effortFormat, EffortName(effort)) == Some(line)
    ensures CPrompt(t, msgs, true, effort, false)
      == CHead(t, msgs) + t.system.prefix + CBody(t.system, line) + t.system.suffix + CTurns(t, msgs)
    ensures PyAccepts(t, msgs, true)
    ensures PyPrompt(t, msgs, true, effort, false, space)
      == PyHead(t, msgs) + t.system.prefix + PyEffort(t.effortFormat, EffortName(effort)) + t.system.suffix
         + PyTurns(t, msgs, space)
  {
    PromptsSplit(t, msgs, true, effort, space);
    hide CHead, PyHead, CTurns, PyTurns, CPrompt, PyPrompt, CEffort, PyEffort, CBody, EffortName;
    Grouped(CHead(t, msgs), t.system.prefix, CBody(t.system, line), t.system.suffix);
    Grouped(PyHead(t, msgs), t.system.prefix, PyEffort(t.effortFormat, EffortName(effort)), t.system.suffix);
  }

  /** The effort line stands between what is in front and the first turn. */
  lemma EffortLineIs(t: Template, msgs: seq<Message>, effort: Option<string>, a: string, b: string,
                     space: char -> bool)
    requires !Occurs(a, PLACEHOLDER) && t.effortFormat == a + PLACEHOLDER + b
    requires CAccepts(t, msgs, true, effort)
    ensures var line := a + (if effort == Some("high") then "High" else "Max") + b;
      && CPrompt(t, msgs, true, effort, false)
         == CHead(t, msgs) + t.system.prefix + CBody(t.system, line) + t.system.suffix + CTurns(t, msgs)
      && PyAccepts(t, msgs, true)
      && (!Occurs(b, PLACEHOLDER) ==>
            PyPrompt(t, msgs, true, effort, false, space)
            == PyHead(t, msgs) + t.system.prefix + line + t.system.suffix + PyTurns(t, msgs, space))
  {
    hide *;
    EffortNames(effort);
    var name := EffortName(effort);
    EffortReplaces(a, b, name);
    if !Occurs(b, PLACEHOLDER) { EffortReplaces(b, "", name); }
    PromptWith(t, msgs, effort, a + name + b, space);
  }

  // ---------------------------------------------------------------- what agreeing asks of the template

  /** A text is plain exactly if the one renderer writes it as it is, and the effort format has one
      placeholder exactly if both renderers fill it alike. */
  lemma PlainIff(rule: Role, s: string, name: string)
    requires |name| < 8
    ensures Plain(rule, s) <==> CBody(rule, s) == s
    ensures OnePlaceholder(s) <==> CEffort(s, name) == Some(PyEffort(s, name))
  {
    UnchangedIff(rule, s);
    EffortAgreesIff(s, name);
    hide CBody, CEffort, PyEffort, Occurs, Find, Bare;
  }

  /** So the template's texts ask for nothing but this. */
  lemma PlainTemplateIff(t: Template, msgs: seq<Message>, thinking: bool, effort: Option<string>)
    requires Complete(msgs) && msgs != []
    ensures PlainTemplate(t, msgs, thinking, effort) <==>
      var name := if effort == Some("high") then "High" else "Max";
      && (t.prefixMode || msgs[0].role.value in ["system", "developer"] || CHead(t, msgs) == PyHead(t, msgs))
      && (thinking && t.effortFormat != "" ==>
            var line := PyEffort(t.effortFormat, name);
            CEffort(t.effortFormat, name) == Some(line) && CBody(t.system, line) == line)
  {
    var name := EffortName(effort);
    EffortNames(effort);
    PlainIff(t.system, t.defaultSystem, name);
    PlainIff(t.system, t.effortFormat, name);
    PlainIff(t.system, PyEffort(t.effortFormat, name), name);
    HeadsAgreeIff(t, msgs);
    hide CBody, CEffort, PyEffort, Plain, OnePlaceholder, CHead, PyHead, EffortName;
  }

  lemma HeadsAgreeIff(t: Template, msgs: seq<Message>)
    requires Complete(msgs) && msgs != []
    ensures CHead(t, msgs) == PyHead(t, msgs) <==> (NeedsDefault(t, msgs) ==> Plain(t.system, t.defaultSystem))
  {
    hide *;
    PlainIff(t.system, t.defaultSystem, "");
    HeadParts(t, msgs);
    var (p, b, d, q) := (t.system.prefix, CBody(t.system, t.defaultSystem), t.defaultSystem, t.system.suffix);
    Cancel(t.bos + p, b, d, q);
  }

  lemma HeadParts(t: Template, msgs: seq<Message>)
    requires Complete(msgs) && msgs != []
    ensures !NeedsDefault(t, msgs) ==> CHead(t, msgs) == PyHead(t, msgs)
    ensures NeedsDefault(t, msgs) ==>
      && CHead(t, msgs) == t.bos + t.system.prefix + CBody(t.system, t.defaultSystem) + t.system.suffix
      && PyHead(t, msgs) == t.bos + t.system.prefix + t.defaultSystem + t.system.suffix
  {
    hide CBody, Joined, SystemContents;
    Grouped(t.bos, t.system.prefix, CBody(t.system, t.defaultSystem), t.system.suffix);
    Grouped(t.bos, t.system.prefix, t.defaultSystem, t.system.suffix);
  }

  lemma Cancel(a: string, x: string, y: string, b: string)
    ensures a + x + b == a + y + b <==> x == y
  {
    if a + x + b == a + y + b {
      assert x == (a + x + b)[|a|..|a| + |x|];
      assert y == (a + y + b)[|a|..|a| + |y|];
    }
  }
}
