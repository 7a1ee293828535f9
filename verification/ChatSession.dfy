/** A conversation rendered a turn at a time, the replies in between, and the whole of it at once. */
module ChatSession {
  import opened ChatLaws
  import opened ChatRender
  import opened ChatTemplate
  import opened Occurrences
  import opened Probing

  // ---------------------------------------------------------------- one turn

  function Opening(t: Template): string {
    t.bos + if !t.prefixMode && t.defaultSystem != "" then CMessage(t.system, t.defaultSystem) else ""
  }

  /** One question, as the engine's chat loop renders it: at the start, what opens a conversation;
      always, the question and what asks for a reply. */
  function UserTurn(t: Template, content: string, first: bool, thinking: bool): string {
    (if first then Opening(t) else "") + CMessage(t.user, content) + Generation(t, thinking, true)
  }

  /** Renders one turn into the buffer. It succeeds exactly if there is a content, thinking is
      supported if asked for, and the turn with its NUL fits. */
  method RenderUserTurn(t: Template, content: Option<string>, first: bool, thinking: bool, out: array<char>, cap: nat)
    returns (ok: bool, length: nat)
    requires cap <= out.Length
    modifies out
    ensures ok <==> content.Some? && (thinking ==> t.supportsThinking)
                    && |UserTurn(t, content.value, first, thinking)| < cap
    ensures ok ==> length < cap && out[..length] == UserTurn(t, content.value, first, thinking)
  {
    hide CMessage;
    if content.None? || cap < 1 {
      return false, 0;
    }
    if thinking && !t.supportsThinking {
      return false, 0;
    }
    length, ok := 0, true;
    out[0] := '\0';
    if first {
      ok, length := AppendOpening(t, out, cap);
    }
    if ok {
      ok, length := AppendMessage(t.user, content.value, out, cap, length);
    }
    if ok {
      ok, length := Append(out, cap, length, if thinking then t.thinkingGeneration else t.generation);
    }
  }

  method AppendOpening(t: Template, out: array<char>, cap: nat) returns (ok: bool, length: nat)
    requires 1 <= cap <= out.Length
    modifies out
    ensures ok <==> |Opening(t)| < cap
    ensures length < cap && (ok ==> out[..length] == Opening(t))
  {
    hide CMessage;
    ok, length := Append(out, cap, 0, t.bos);
    if ok && !t.prefixMode && t.defaultSystem != "" {
      ok, length := AppendMessage(t.system, t.defaultSystem, out, cap, length);
    }
  }

  // ---------------------------------------------------------------- a conversation

  datatype Exchange = Exchange(question: string, reply: string)

  /** All that was rendered and said: each question's turn and the reply to it. */
  function Session(t: Template, past: seq<Exchange>, thinking: bool): string {
    if past == [] then ""
    else
      var n := |past| - 1;
      Session(t, past[..n], thinking) + UserTurn(t, past[n].question, n == 0, thinking) + past[n].reply
  }

  /** The same as a list of messages. */
  function Messages(past: seq<Exchange>): (msgs: seq<Message>)
    ensures |msgs| == 2 * |past|
    ensures forall m :: m in msgs ==> m.role in [Some("user"), Some("assistant")] && m.content.Some?
  {
    if past == [] then []
    else
      var n := |past| - 1;
      Messages(past[..n]) + [Says("user", past[n].question)] + [Says("assistant", past[n].reply)]
  }

  /** A reply that stands behind the text asking for it as it would stand in a message of its own. */
  predicate Echoes(t: Template, reply: string, thinking: bool) {
    Generation(t, thinking, true) + reply
    == t.assistant.prefix + CBody(t.assistant, reply) + t.assistant.suffix
  }

  /** The template can be used so. */
  predicate Workable(t: Template, thinking: bool, effort: Option<string>) {
    && (thinking ==> t.supportsThinking)
    && (NeedsEffort(t, thinking) ==>
          && CEffort(t.effortFormat, EffortName(effort)).Some?
          && |CEffort(t.effortFormat, EffortName(effort)).value| < 256)
  }

  lemma AcceptsTurns(t: Template, msgs: seq<Message>, thinking: bool, effort: Option<string>)
    requires Workable(t, thinking, effort) && msgs != []
    requires forall m :: m in msgs ==> m.role in [Some("user"), Some("assistant")] && m.content.Some?
    ensures CAccepts(t, msgs, thinking, effort)
  {
    RolesByName(t, "user");
    RolesByName(t, "assistant");
    hide RoleOf, CEffort;
  }

  /** That is, one question can be rendered. */
  lemma WorkableIff(t: Template, question: string, thinking: bool, effort: Option<string>)
    ensures Workable(t, thinking, effort) <==> CAccepts(t, [Says("user", question)], thinking, effort)
  {
    RolesByName(t, "user");
    hide CEffort;
  }

  /** The prompt for the whole conversation, up to another question. */
  function Whole(t: Template, past: seq<Exchange>, question: string, thinking: bool, effort: Option<string>): string
    requires Workable(t, thinking, effort)
  {
    var msgs := Messages(past) + [Says("user", question)];
    AcceptsTurns(t, msgs, thinking, effort);
    CPrompt(t, msgs, thinking, effort, true)
  }

  /** It is what the engine has been given. */
  predicate Alike(t: Template, past: seq<Exchange>, question: string, thinking: bool, effort: Option<string>)
    requires Workable(t, thinking, effort)
  {
    Whole(t, past, question, thinking, effort)
    == Session(t, past, thinking) + UserTurn(t, question, past == [], thinking)
  }

  // ---------------------------------------------------------------- the first turn

  lemma FirstPrompt(t: Template, question: string, thinking: bool, effort: Option<string>)
    requires Workable(t, thinking, effort)
    ensures Messages([]) + [Says("user", question)] == [Says("user", question)]
    ensures CAccepts(t, [Says("user", question)], thinking, effort)
    ensures CPrompt(t, [Says("user", question)], thinking, effort, false)
      == Opening(t) + CReasoning(t, thinking, effort) + CMessage(t.user, question)
  {
    var one := [Says("user", question)];
    AcceptsTurns(t, one, thinking, effort);
    PromptsSplit(t, one, thinking, effort, c => true);
    assert SystemContents([]) == [] && Joined(t.separator, []) == "" && CTurns(t, []) == "";
    assert [] + one == one;
    FrontAdds(t.separator, [], "user", question);
    TurnAdds(t, [], "user", question, c => true);
    hide CReasoning, CEffort, CBody, CTurns, PyTurns, SystemContents, Joined, CPrompt, RoleOf;
    assert "" + t.user.prefix == t.user.prefix;
  }

  lemma WholeParts(t: Template, past: seq<Exchange>, question: string, thinking: bool, effort: Option<string>)
    requires Workable(t, thinking, effort)
    ensures var msgs := Messages(past) + [Says("user", question)];
      && CAccepts(t, msgs, thinking, effort)
      && Whole(t, past, question, thinking, effort)
         == CPrompt(t, msgs, thinking, effort, false) + Generation(t, thinking, true)
  {
    var msgs := Messages(past) + [Says("user", question)];
    AcceptsTurns(t, msgs, thinking, effort);
    GenerationAdds(t, msgs, thinking, effort, c => true);
    hide CPrompt, PyPrompt, CAccepts, Workable, Messages;
  }

  lemma TurnParts(t: Template, question: string, thinking: bool)
    ensures UserTurn(t, question, true, thinking)
      == Opening(t) + CMessage(t.user, question) + Generation(t, thinking, true)
    ensures UserTurn(t, question, false, thinking)
      == t.user.prefix + CBody(t.user, question) + t.user.suffix + Generation(t, thinking, true)
  {
    hide Opening, CBody, Generation;
    assert "" + CMessage(t.user, question) == CMessage(t.user, question);
  }

  lemma FourParts(o: string, r: string, m: string, g: string)
    ensures o + r + m + g == o + r + (m + g) && o + m + g == o + "" + (m + g)
    ensures o + "" + m + g == "" + (o + m + g)
  {
    assert o + r + m + g == o + r + (m + g);
  }

  /** What starts a conversation is the same exactly if no effort line is written: the turn alone has
      none. */
  lemma FirstTurnIff(t: Template, question: string, thinking: bool, effort: Option<string>)
    requires Workable(t, thinking, effort)
    ensures Alike(t, [], question, thinking, effort) <==> CReasoning(t, thinking, effort) == ""
  {
    var (o, r) := (Opening(t), CReasoning(t, thinking, effort));
    var (m, g) := (CMessage(t.user, question), Generation(t, thinking, true));
    assert Alike(t, [], question, thinking, effort) <==>
      Whole(t, [], question, thinking, effort) == Session(t, [], thinking) + UserTurn(t, question, true, thinking);
    assert Session(t, [], thinking) == "";
    hide *;
    WholeParts(t, [], question, thinking, effort);
    FirstPrompt(t, question, thinking, effort);
    TurnParts(t, question, thinking);
    FourParts(o, r, m, g);
    FourParts(o, "", m, g);
    Cancel(o, r, "", m + g);
  }

  // ---------------------------------------------------------------- further turns

  /** What the prompt without a request for a reply has before a question. */
  function Before(t: Template, past: seq<Exchange>, thinking: bool, effort: Option<string>): string
    requires Workable(t, thinking, effort)
  {
    if past == [] then ""
    else
      AcceptsTurns(t, Messages(past), thinking, effort);
      CPrompt(t, Messages(past), thinking, effort, false)
  }

  lemma Regroups(b: string, p: string, c: string, s: string, g: string)
    ensures b + p + c + s + g == b + (p + c + s + g)
  {
    assert b + p + c + s + g == b + (p + c + s + g);
  }

  /** Grows, unfolded. */
  lemma Grown(before: string, after: string, rule: Role, body: string)
    requires Grows(before, after, rule, body)
    ensures after == before + rule.prefix + body + rule.suffix
  {
  }

  lemma BeforeIs(t: Template, past: seq<Exchange>, thinking: bool, effort: Option<string>)
    requires Workable(t, thinking, effort)
    ensures past == [] ==> Before(t, past, thinking, effort) == ""
    ensures past != [] ==>
      && Messages(past) != [] && CAccepts(t, Messages(past), thinking, effort)
      && Before(t, past, thinking, effort) == CPrompt(t, Messages(past), thinking, effort, false)
  {
    if past != [] { AcceptsTurns(t, Messages(past), thinking, effort); }
    hide CPrompt, CAccepts, Workable, Messages;
  }

  lemma WholeIs(t: Template, past: seq<Exchange>, question: string, thinking: bool, effort: Option<string>)
    requires Workable(t, thinking, effort) && CReasoning(t, thinking, effort) == ""
    ensures Whole(t, past, question, thinking, effort)
      == Before(t, past, thinking, effort) + UserTurn(t, question, past == [], thinking)
  {
    hide *;
    WholeParts(t, past, question, thinking, effort);
    BeforeIs(t, past, thinking, effort);
    TurnParts(t, question, thinking);
    if past == [] {
      FirstPrompt(t, question, thinking, effort);
      FourParts(Opening(t), "", CMessage(t.user, question), Generation(t, thinking, true));
    } else {
      RulesAre(t);
      PromptGrows(t, Messages(past), "user", question, thinking, effort, c => true);
      var after := CPrompt(t, Messages(past) + [Says("user", question)], thinking, effort, false);
      Grown(Before(t, past, thinking, effort), after, t.user, CBody(t.user, question));
      Regroups(Before(t, past, thinking, effort), t.user.prefix, CBody(t.user, question), t.user.suffix,
               Generation(t, thinking, true));
    }
  }

  lemma MessagesAdd(past: seq<Exchange>, e: Exchange)
    ensures Messages(past + [e]) == Messages(past) + [Says("user", e.question)] + [Says("assistant", e.reply)]
  {
    assert (past + [e])[..|past|] == past;
  }

  lemma SessionAdds(t: Template, past: seq<Exchange>, e: Exchange, thinking: bool)
    ensures Session(t, past + [e], thinking)
      == Session(t, past, thinking) + UserTurn(t, e.question, past == [], thinking) + e.reply
  {
    assert (past + [e])[..|past|] == past;
    hide UserTurn;
  }

  lemma CancelBehind(c: string, g: string, r: string, p: string, b: string, q: string)
    ensures c + g + r == c + p + b + q <==> g + r == p + b + q
  {
    Cancel(c, g + r, p + b + q, "");
    assert c + g + r == c + (g + r) + "";
    assert c + p + b + q == c + (p + b + q) + "";
  }

  lemma ReplyAdds(t: Template, msgs: seq<Message>, reply: string, thinking: bool, effort: Option<string>)
    requires CAccepts(t, msgs, thinking, effort)
    ensures CAccepts(t, msgs + [Says("assistant", reply)], thinking, effort)
    ensures CPrompt(t, msgs + [Says("assistant", reply)], thinking, effort, false) ==
      CPrompt(t, msgs, thinking, effort, false) + t.assistant.prefix + CBody(t.assistant, reply) + t.assistant.suffix
  {
    hide *;
    RulesAre(t);
    PromptGrows(t, msgs, "assistant", reply, thinking, effort, x => true);
    Grown(CPrompt(t, msgs, thinking, effort, false),
          CPrompt(t, msgs + [Says("assistant", reply)], thinking, effort, false), t.assistant,
          CBody(t.assistant, reply));
  }

  lemma BeforeAfter(t: Template, past: seq<Exchange>, e: Exchange, thinking: bool, effort: Option<string>)
    returns (c: string)
    requires Workable(t, thinking, effort)
    ensures Whole(t, past, e.question, thinking, effort) == c + Generation(t, thinking, true)
    ensures Before(t, past + [e], thinking, effort)
      == c + t.assistant.prefix + CBody(t.assistant, e.reply) + t.assistant.suffix
  {
    hide *;
    var msgs := Messages(past) + [Says("user", e.question)];
    WholeParts(t, past, e.question, thinking, effort);
    c := CPrompt(t, msgs, thinking, effort, false);
    ReplyAdds(t, msgs, e.reply, thinking, effort);
    MessagesAdd(past, e);
    assert past + [e] != [];
    BeforeIs(t, past + [e], thinking, effort);
  }

  /** A reply keeps the two the same exactly if it stands behind the text asking for it as it would in
      a message of its own. */
  lemma BeforeAdds(t: Template, past: seq<Exchange>, e: Exchange, thinking: bool, effort: Option<string>)
    requires Workable(t, thinking, effort) && CReasoning(t, thinking, effort) == ""
    requires Before(t, past, thinking, effort) == Session(t, past, thinking)
    ensures Before(t, past + [e], thinking, effort) == Session(t, past + [e], thinking)
      <==> Echoes(t, e.reply, thinking)
  {
    var (g, b) := (Generation(t, thinking, true), CBody(t.assistant, e.reply));
    assert Echoes(t, e.reply, thinking) <==> g + e.reply == t.assistant.prefix + b + t.assistant.suffix;
    hide *;
    var c := BeforeAfter(t, past, e, thinking, effort);
    WholeIs(t, past, e.question, thinking, effort);
    SessionAdds(t, past, e, thinking);
    CancelBehind(c, g, e.reply, t.assistant.prefix, b, t.assistant.suffix);
  }

  /** As long as every reply stands behind the text asking for it as it would in a message of its own,
      what the engine was given is the prompt for the whole conversation. */
  lemma {:induction false} BeforeIsSession(t: Template, past: seq<Exchange>, thinking: bool, effort: Option<string>)
    requires Workable(t, thinking, effort) && CReasoning(t, thinking, effort) == ""
    requires forall e :: e in past ==> Echoes(t, e.reply, thinking)
    ensures Before(t, past, thinking, effort) == Session(t, past, thinking)
  {
    hide *;
    if past == [] {
      BeforeIs(t, past, thinking, effort);
      NoSession(t, thinking);
    } else {
      var n := |past| - 1;
      assert past == past[..n] + [past[n]];
      BeforeIsSession(t, past[..n], thinking, effort);
      BeforeAdds(t, past[..n], past[n], thinking, effort);
    }
  }

  lemma NoSession(t: Template, thinking: bool)
    ensures Session(t, [], thinking) == ""
  {
  }

  lemma AlikeIs(t: Template, past: seq<Exchange>, question: string, thinking: bool, effort: Option<string>)
    requires Workable(t, thinking, effort) && CReasoning(t, thinking, effort) == ""
    ensures Alike(t, past, question, thinking, effort) <==>
      Before(t, past, thinking, effort) == Session(t, past, thinking)
  {
    WholeIs(t, past, question, thinking, effort);
    var turn := UserTurn(t, question, past == [], thinking);
    hide Whole, Session, UserTurn, Before, Workable, CReasoning;
    assert Alike(t, past, question, thinking, effort) <==>
      Whole(t, past, question, thinking, effort) == Session(t, past, thinking) + turn;
    Cancel("", Before(t, past, thinking, effort), Session(t, past, thinking), turn);
    assert "" + Before(t, past, thinking, effort) == Before(t, past, thinking, effort);
    assert "" + Session(t, past, thinking) == Session(t, past, thinking);
  }

  /** Every reply is one that the model may give. */
  ghost predicate Said(past: seq<Exchange>, says: string -> bool) {
    forall e :: e in past ==> says(e.reply)
  }

  ghost predicate AlwaysAlike(t: Template, says: string -> bool, thinking: bool, effort: Option<string>)
    requires Workable(t, thinking, effort)
  {
    forall past: seq<Exchange>, question: string :: Said(past, says) ==> Alike(t, past, question, thinking, effort)
  }

  /** Rendering a turn at a time gives the prompt of the whole conversation, for all conversations,
      exactly if no effort line is written and every reply the model may give stands behind the text
      asking for it as it would in a message of its own. */
  lemma AlwaysAlikeIff(t: Template, says: string -> bool, thinking: bool, effort: Option<string>)
    requires Workable(t, thinking, effort)
    ensures AlwaysAlike(t, says, thinking, effort) <==>
      && CReasoning(t, thinking, effort) == ""
      && forall r: string :: says(r) ==> Echoes(t, r, thinking)
  {
    var line := CReasoning(t, thinking, effort);
    hide Workable, CReasoning, Echoes, Alike;
    if line == "" {
      if forall r: string :: says(r) ==> Echoes(t, r, thinking) {
        forall past: seq<Exchange>, question: string | Said(past, says)
          ensures Alike(t, past, question, thinking, effort)
        {
          BeforeIsSession(t, past, thinking, effort);
          AlikeIs(t, past, question, thinking, effort);
        }
      } else {
        var r: string :| says(r) && !Echoes(t, r, thinking);
        OneReplyDiffers(t, r, thinking, effort);
        assert Said([Exchange("", r)], says);
      }
    } else {
      FirstTurnIff(t, "", thinking, effort);
      assert Said([], says);
    }
  }

  lemma OneReplyDiffers(t: Template, r: string, thinking: bool, effort: Option<string>)
    requires Workable(t, thinking, effort) && CReasoning(t, thinking, effort) == "" && !Echoes(t, r, thinking)
    ensures !Alike(t, [Exchange("", r)], "", thinking, effort)
  {
    hide *;
    BeforeIs(t, [], thinking, effort);
    NoSession(t, thinking);
    BeforeAdds(t, [], Exchange("", r), thinking, effort);
    assert [] + [Exchange("", r)] == [Exchange("", r)];
    AlikeIs(t, [Exchange("", r)], "", thinking, effort);
  }

  /** Where the text asking for a reply is how a reply's message begins, that is so exactly if nothing
      is written behind it and stripping and trimming leave the reply alone. */
  lemma EchoesIff(t: Template, reply: string, thinking: bool)
    requires Generation(t, thinking, true) == t.assistant.prefix && t.assistant.suffix == ""
    ensures Echoes(t, reply, thinking) <==>
      && (t.assistant.stripAfter == "" || !Occurs(reply, t.assistant.stripAfter))
      && (t.assistant.trim ==> Bare(reply, CSpace))
  {
    UnchangedIff(t.assistant, reply);
    var (p, b) := (t.assistant.prefix, CBody(t.assistant, reply));
    hide CBody, Occurs, Bare;
    Cancel(p, reply, b, "");
    assert p + reply + "" == p + reply;
  }

  /** With an end mark behind every reply's message and nothing stripped or trimmed it never is. */
  lemma EndMarkIsMissing(t: Template, reply: string, thinking: bool)
    requires Generation(t, thinking, true) == t.assistant.prefix && t.assistant.suffix != ""
    requires t.assistant.stripAfter == "" && !t.assistant.trim
    ensures !Echoes(t, reply, thinking)
  {
  }
}
