/** Two renderers of one chat contract: one writes into a bounded buffer, the other joins a list. */
module ChatTemplate {
  import opened Occurrences
  import opened Probing

  datatype Role = Role(prefix: string, suffix: string, stripAfter: string, trim: bool)

  datatype Template = Template(bos: string, defaultSystem: string, prefixMode: bool, separator: string,
                               effortFormat: string, generation: string, thinkingGeneration: string,
                               supportsThinking: bool, system: Role, developer: Role, user: Role, assistant: Role)

  datatype Message = Message(role: Option<string>, content: Option<string>)

  const PLACEHOLDER := "{effort}"

  predicate IsSystem(role: string) {
    role == "system" || role == "developer"
  }

  function RoleOf(t: Template, role: string): Option<Role> {
    if role == "system" then Some(t.system)
    else if role == "developer" then Some(t.developer)
    else if role == "user" then Some(t.user)
    else if role == "assistant" then Some(t.assistant)
    else None
  }

  // ---------------------------------------------------------------- what comes after the marker

  /** The scan forward, match after match without overlap: the start of the last one, or `last`. */
  function LastForward(text: string, marker: string, cursor: nat, last: int): (r: int)
    requires marker != [] && cursor <= |text|
    ensures r == last || (r >= 0 && At(text, marker, r))
    decreases |text| - cursor
  {
    var f := FindFrom(text, marker, cursor);
    if f < 0 then last else LastForward(text, marker, f + |marker|, f)
  }

  /** What follows the last match of the scan; all of the text if there is none. */
  function AfterForward(text: string, marker: string): (r: string)
    requires marker != []
  {
    var f := LastForward(text, marker, 0, -1);
    if f < 0 then text else text[f + |marker|..]
  }

  /** The last place at or before `i` where the marker stands, or -1. */
  function LastFrom(text: string, marker: string, i: nat): (r: int)
    requires i <= |text|
    ensures r == -1 || (0 <= r <= i && At(text, marker, r))
    ensures forall j: nat :: j <= i && At(text, marker, j) ==> j <= r
  {
    if At(text, marker, i) then i else if i == 0 then -1 else LastFrom(text, marker, i - 1)
  }

  /** What follows the last occurrence, as splitting once from the right gives it. */
  function AfterLast(text: string, marker: string): (r: string)
  {
    var f := LastFrom(text, marker, |text|);
    if f < 0 then text else text[f + |marker|..]
  }

  /** If occurrences never overlap, the scan passes none by. */
  lemma {:induction false} ForwardIsLast(text: string, marker: string, cursor: nat, last: int)
    requires marker != [] && Unbordered(marker) && cursor <= |text|
    requires last == -1 || (last >= 0 && cursor == last + |marker| && At(text, marker, last))
    requires forall j: nat :: j < cursor && At(text, marker, j) ==> j <= last
    ensures LastForward(text, marker, cursor, last) == LastFrom(text, marker, |text|)
    decreases |text| - cursor
  {
    hide At, Unbordered, Border;
    var f := FindFrom(text, marker, cursor);
    if f >= 0 {
      assert f + |marker| <= |text| by { AtFits(text, marker, f); }
      forall j: nat | j < f + |marker| && At(text, marker, j) ensures j <= f {
        if f < j { NoOverlap(text, marker, f, j); }
      }
      ForwardIsLast(text, marker, f + |marker|, f);
    }
  }

  lemma AtFits(text: string, marker: string, f: nat)
    requires At(text, marker, f)
    ensures f + |marker| <= |text|
  {
  }

  lemma NoOverlap(text: string, marker: string, i: nat, j: nat)
    requires Unbordered(marker) && At(text, marker, i) && At(text, marker, j) && i < j
    ensures i + |marker| <= j
  {
    if j < i + |marker| { OverlapIsBorder(text, marker, i, j); }
  }

  /** A marker that overlaps itself, written so that it does, is found once by the scan but ends
      the text. */
  lemma Overlapping(marker: string, d: nat)
    requires marker != [] && Border(marker, d)
    ensures AfterForward(marker + marker[d..], marker) != AfterLast(marker + marker[d..], marker)
  {
    var text := marker + marker[d..];
    var m := |marker|;
    assert At(text, marker, 0);
    assert text[m - d..] == marker by { EndsWith(marker, d); }
    assert At(text, marker, m - d);
    hide Border;
    var f := LastFrom(text, marker, |text|);
    assert f == m - d;
    assert AfterLast(text, marker) == [];
    assert FindFrom(text, marker, 0) == 0;
    assert FindFrom(text, marker, m) == -1;
    assert LastForward(text, marker, m, 0) == 0;
    assert LastForward(text, marker, 0, -1) == 0;
    assert AfterForward(text, marker) == text[m..];
  }

  lemma EndsWith(marker: string, d: nat)
    requires Border(marker, d)
    ensures (marker + marker[d..])[|marker| - d..] == marker
  {
    assert (marker + marker[d..])[|marker| - d..] == marker[|marker| - d..] + marker[d..];
    assert marker[..d] + marker[d..] == marker;
  }

  /** The two ways of stripping agree on every text exactly if the marker cannot overlap itself. */
  lemma StripAgreesIffUnbordered(marker: string)
    requires marker != []
    ensures (forall text: string :: AfterForward(text, marker) == AfterLast(text, marker)) <==> Unbordered(marker)
  {
    if Unbordered(marker) {
      forall text: string ensures AfterForward(text, marker) == AfterLast(text, marker) {
        ForwardIsLast(text, marker, 0, -1);
      }
    } else {
      var d: nat :| 0 < d < |marker| && Border(marker, d);
      Overlapping(marker, d);
    }
  }

  // ---------------------------------------------------------------- trimming

  /** The C library's white space. */
  predicate CSpace(c: char) {
    c == ' ' || 9 <= c as int <= 13
  }

  function TrimLeft(s: string, space: char -> bool): (r: string)
    ensures |r| <= |s| && (r != [] ==> !space(r[0]))
  {
    if s != [] && space(s[0]) then TrimLeft(s[1..], space) else s
  }

  function TrimRight(s: string, space: char -> bool): (r: string)
    ensures |r| <= |s| && (r != [] ==> !space(r[|r| - 1]))
  {
    if s != [] && space(s[|s| - 1]) then TrimRight(s[..|s| - 1], space) else s
  }

  function Trim(s: string, space: char -> bool): string {
    TrimRight(TrimLeft(s, space), space)
  }

  /** No white space at either end. */
  predicate Bare(s: string, space: char -> bool) {
    s == [] || (!space(s[0]) && !space(s[|s| - 1]))
  }

  lemma {:induction false} TrimRightKeepsHead(s: string, space: char -> bool)
    ensures TrimRight(s, space) != [] ==> s != [] && TrimRight(s, space)[0] == s[0]
  {
    if s != [] && space(s[|s| - 1]) { TrimRightKeepsHead(s[..|s| - 1], space); }
  }

  lemma TrimIsBare(s: string, space: char -> bool)
    ensures Bare(Trim(s, space), space)
  {
    TrimRightKeepsHead(TrimLeft(s, space), space);
  }

  /** Trimming changes nothing exactly if there is nothing to trim. */
  lemma TrimOfBare(s: string, space: char -> bool)
    ensures Trim(s, space) == s <==> Bare(s, space)
  {
    TrimIsBare(s, space);
  }

  ghost predicate Wider(space: char -> bool) {
    forall c :: CSpace(c) ==> space(c)
  }

  /** Trimming with a wider notion of space, after trimming with the narrower one. */
  lemma {:induction false} TrimLeftTwice(s: string, space: char -> bool)
    requires Wider(space)
    ensures TrimLeft(TrimLeft(s, CSpace), space) == TrimLeft(s, space)
  {
    if s != [] && CSpace(s[0]) { TrimLeftTwice(s[1..], space); }
  }

  lemma {:induction false} TrimRightTwice(s: string, space: char -> bool)
    requires Wider(space)
    ensures TrimRight(TrimRight(s, CSpace), space) == TrimRight(s, space)
  {
    if s != [] && CSpace(s[|s| - 1]) { TrimRightTwice(s[..|s| - 1], space); }
  }

  lemma {:induction false} TrimRightCons(s: string, space: char -> bool)
    requires s != []
    ensures TrimRight(s, space) ==
      if TrimRight(s[1..], space) != [] then [s[0]] + TrimRight(s[1..], space)
      else if space(s[0]) then [] else [s[0]]
  {
    if |s| > 1 {
      var last := |s| - 1;
      assert s[1..][|s[1..]| - 1] == s[last];
      if space(s[last]) {
        TrimRightCons(s[..last], space);
        assert s[..last][1..] == s[1..][..last - 1];
      } else {
        assert s == [s[0]] + s[1..];
      }
    } else {
      assert s[1..] == [] && s == [s[0]];
    }
  }

  /** Trimming the one end does not disturb trimming the other. */
  lemma {:induction false} TrimsCommute(s: string, space: char -> bool)
    requires Wider(space)
    ensures TrimLeft(TrimRight(s, CSpace), space) == TrimRight(TrimLeft(s, space), CSpace)
  {
    if s != [] {
      hide CSpace;
      TrimRightCons(s, CSpace);
      assert CSpace(s[0]) ==> space(s[0]) by { WiderAt(space, s[0]); }
      if space(s[0]) {
        TrimsCommute(s[1..], space);
        hide TrimRight;
        var t := TrimRight(s[1..], CSpace);
        assert ([s[0]] + t)[1..] == t;
      }
    }
  }

  lemma WiderAt(space: char -> bool, c: char)
    requires Wider(space)
    ensures CSpace(c) ==> space(c)
  {
  }

  lemma TrimAgreesIfBare(s: string, space: char -> bool)
    requires Wider(space)
    ensures Trim(s, CSpace) == Trim(s, space) <==> Bare(Trim(s, CSpace), space)
  {
    var l := TrimLeft(s, CSpace);
    TrimsCommute(l, space);
    TrimLeftTwice(s, space);
    TrimRightTwice(TrimLeft(s, space), space);
    assert Trim(Trim(s, CSpace), space) == Trim(s, space);
    TrimOfBare(Trim(s, CSpace), space);
  }

  /** The first, and the last, of the text's characters that the C library does not drop. */
  ghost predicate FirstKept(s: string, i: nat) {
    i < |s| && !CSpace(s[i]) && forall j :: 0 <= j < i ==> CSpace(s[j])
  }

  ghost predicate LastKept(s: string, i: nat) {
    i < |s| && !CSpace(s[i]) && forall j :: i < j < |s| ==> CSpace(s[j])
  }

  lemma {:induction false} TrimLeftIs(s: string) returns (i: nat)
    ensures i <= |s| && TrimLeft(s, CSpace) == s[i..] && forall j :: 0 <= j < i ==> CSpace(s[j])
    ensures i < |s| ==> FirstKept(s, i)
  {
    hide CSpace;
    i := 0;
    if s != [] && CSpace(s[0]) {
      i := TrimLeftIs(s[1..]);
      i := i + 1;
    }
  }

  lemma {:induction false} TrimRightIs(s: string) returns (n: nat)
    ensures n <= |s| && TrimRight(s, CSpace) == s[..n] && forall j :: n <= j < |s| ==> CSpace(s[j])
    ensures n > 0 ==> LastKept(s, n - 1)
  {
    hide CSpace;
    n := |s|;
    if s != [] && CSpace(s[|s| - 1]) {
      n := TrimRightIs(s[..|s| - 1]);
      assert s[..|s| - 1][..n] == s[..n];
    }
  }

  /** Both renderers trim a text alike exactly if its first and last characters that are no white
      space to the C library are no other white space either, such as a no-break space. */
  lemma TrimAgreesIff(s: string, space: char -> bool)
    requires Wider(space)
    ensures Trim(s, CSpace) == Trim(s, space) <==>
      forall i: nat :: FirstKept(s, i) || LastKept(s, i) ==> !space(s[i])
  {
    hide *;
    TrimAgreesIfBare(s, space);
    var i := TrimLeftIs(s);
    var n := TrimRightIs(s[i..]);
    TrimIs(s);
    if i < |s| {
      LastInTail(s, i, n);
      KeptEnds(s, i, i + n - 1, space);
      assert s[i..][..n] == s[i..i + n];
    } else {
      NoneKept(s, space);
      assert s[i..][..n] == "";
    }
  }

  lemma TrimIs(s: string)
    ensures Trim(s, CSpace) == TrimRight(TrimLeft(s, CSpace), CSpace)
  {
  }

  lemma KeptEnds(s: string, i: nat, k: nat, space: char -> bool)
    requires FirstKept(s, i) && LastKept(s, k)
    ensures i <= k
    ensures Bare(s[i..k + 1], space) <==> forall j: nat :: FirstKept(s, j) || LastKept(s, j) ==> !space(s[j])
  {
    hide CSpace;
    OneFirst(s, i);
    OneLast(s, k);
    assert i <= k;
    hide FirstKept, LastKept;
    assert s[i..k + 1][0] == s[i] && s[i..k + 1][k - i] == s[k];
  }

  lemma OneFirst(s: string, i: nat)
    requires FirstKept(s, i)
    ensures forall j: nat :: FirstKept(s, j) <==> j == i
  {
    hide CSpace;
  }

  lemma OneLast(s: string, k: nat)
    requires LastKept(s, k)
    ensures forall j: nat :: LastKept(s, j) <==> j == k
  {
    hide CSpace;
  }

  lemma NoneKept(s: string, space: char -> bool)
    requires forall j :: 0 <= j < |s| ==> CSpace(s[j])
    ensures forall j: nat :: !FirstKept(s, j) && !LastKept(s, j)
    ensures Bare("", space)
  {
  }

  lemma LastInTail(s: string, i: nat, n: nat)
    requires FirstKept(s, i) && n <= |s| - i && forall j :: n <= j < |s| - i ==> CSpace(s[i..][j])
    requires n > 0 ==> LastKept(s[i..], n - 1)
    ensures n > 0 && LastKept(s, i + n - 1) && s[i..][n - 1] == s[i + n - 1]
  {
    hide CSpace;
    assert s[i..][0] == s[i];
    forall j | i + n - 1 < j < |s| ensures CSpace(s[j]) {
      assert s[i..][j - i] == s[j];
    }
  }

  /** A no-break space is white space to the one and not to the other. */
  lemma NoBreakSpaceDiffers(space: char -> bool, nbsp: char)
    requires space(nbsp) && !CSpace(nbsp)
    ensures Trim([nbsp], CSpace) == [nbsp] && Trim([nbsp], space) == []
  {
    assert TrimLeft([nbsp], CSpace) == [nbsp];
    assert TrimLeft([nbsp], space) == [];
  }

  // ---------------------------------------------------------------- one message

  function Stripped(rule: Role, content: string): string {
    if rule.stripAfter != "" then AfterForward(content, rule.stripAfter) else content
  }

  /** What the buffer renderer keeps of a content. */
  function CBody(rule: Role, content: string): string {
    if rule.trim then Trim(Stripped(rule, content), CSpace) else Stripped(rule, content)
  }

  function CMessage(rule: Role, content: string): string {
    rule.prefix + CBody(rule, content) + rule.suffix
  }

  /** What the list renderer keeps of it. */
  function PyBody(rule: Role, content: string, space: char -> bool): string {
    var kept := if rule.stripAfter != "" then AfterLast(content, rule.stripAfter) else content;
    if rule.trim then Trim(kept, space) else kept
  }

  function PyMessage(rule: Role, content: string, space: char -> bool): string {
    rule.prefix + PyBody(rule, content, space) + rule.suffix
  }

  /** The marker does not overlap itself, and trimming leaves no exotic white space at the ends. */
  ghost predicate Agreeable(rule: Role, content: string, space: char -> bool) {
    && (rule.stripAfter != "" ==> Unbordered(rule.stripAfter))
    && (rule.trim ==> Bare(CBody(rule, content), space))
  }

  lemma BodiesAgree(rule: Role, content: string, space: char -> bool)
    requires Wider(space) && Agreeable(rule, content, space)
    ensures CBody(rule, content) == PyBody(rule, content, space)
  {
    if rule.stripAfter != "" { StripAgreesIffUnbordered(rule.stripAfter); }
    hide AfterForward, AfterLast;
    if rule.trim { TrimAgreesIfBare(Stripped(rule, content), space); }
  }

  lemma TrimShorter(s: string)
    ensures |Trim(s, CSpace)| <= |s|
  {
  }

  lemma AfterForwardOf(s: string, marker: string)
    requires marker != []
    ensures if Occurs(s, marker) then |AfterForward(s, marker)| < |s| else AfterForward(s, marker) == s
  {
    var f := FindFrom(s, marker, 0);
    if Occurs(s, marker) {
      var i: nat :| i <= |s| && At(s, marker, i);
      ForwardFinds(s, marker, f + |marker|, f);
    } else {
      assert forall i: nat :: i <= |s| ==> !At(s, marker, i);
    }
  }

  lemma ForwardFinds(s: string, marker: string, cursor: nat, last: nat)
    requires marker != [] && cursor <= |s|
    ensures LastForward(s, marker, cursor, last) >= 0
  {
  }

  /** Stripping and trimming leave a text alone exactly if the marker is not in it and no white
      space is at its ends. */
  lemma UnchangedIff(rule: Role, s: string)
    ensures CBody(rule, s) == s <==>
      (rule.stripAfter == "" || !Occurs(s, rule.stripAfter)) && (rule.trim ==> Bare(s, CSpace))
  {
    if rule.stripAfter != "" { AfterForwardOf(s, rule.stripAfter); }
    hide AfterForward, Occurs, Trim, Bare;
    TrimShorter(Stripped(rule, s));
    TrimOfBare(s, CSpace);
  }

  // ---------------------------------------------------------------- the effort line

  function EffortName(effort: Option<string>): (n: string)
    ensures 0 < |n| < 8
  {
    if effort == Some("high") then "High" else "Max"
  }

  /** The first placeholder replaced; none if there is none. */
  function CEffort(format: string, name: string): Option<string> {
    var f := Find(format, PLACEHOLDER);
    if f < 0 then None else Some(format[..f] + name + format[f + |PLACEHOLDER|..])
  }

  /** Every placeholder replaced. */
  function PyEffort(format: string, name: string): string
    decreases |format|
  {
    var f := Find(format, PLACEHOLDER);
    if f < 0 then format else format[..f] + name + PyEffort(format[f + |PLACEHOLDER|..], name)
  }

  lemma {:induction false} ReplacedShorter(format: string, name: string)
    requires |name| < 8
    ensures if Occurs(format, PLACEHOLDER) then |PyEffort(format, name)| < |format|
            else PyEffort(format, name) == format
    decreases |format|
  {
    hide Occurs, At;
    var f := Find(format, PLACEHOLDER);
    if f >= 0 {
      AtFits(format, PLACEHOLDER, f);
      ReplacedShorter(format[f + |PLACEHOLDER|..], name);
    }
  }

  /** The effort lines are the same exactly if the format has one placeholder and no second after it. */
  lemma EffortAgreesIff(format: string, name: string)
    requires |name| < 8
    ensures CEffort(format, name) == Some(PyEffort(format, name)) <==>
      Find(format, PLACEHOLDER) >= 0 && !Occurs(format[Find(format, PLACEHOLDER) + |PLACEHOLDER|..], PLACEHOLDER)
  {
    var f := Find(format, PLACEHOLDER);
    if f >= 0 {
      var rest := format[f + |PLACEHOLDER|..];
      ReplacedShorter(rest, name);
      hide Find, Occurs, At;
      var head := format[..f] + name;
      assert CEffort(format, name) == Some(head + rest);
      assert PyEffort(format, name) == head + PyEffort(rest, name);
    }
  }

  /** With two placeholders the one renderer leaves the second as it stands. */
  lemma TwoPlaceholdersDiffer(format: string, name: string)
    requires format == PLACEHOLDER + PLACEHOLDER && |name| < 8
    ensures CEffort(format, name) == Some(name + PLACEHOLDER)
    ensures CEffort(format, name) != Some(PyEffort(format, name))
  {
    assert format[..8] == PLACEHOLDER && format[8..] == PLACEHOLDER;
    assert At(format, PLACEHOLDER, 0);
    assert Find(format, PLACEHOLDER) == 0;
    assert format[..0] + name == name;
    OccursIntro(PLACEHOLDER, PLACEHOLDER, 0);
    EffortAgreesIff(format, name);
  }
}
