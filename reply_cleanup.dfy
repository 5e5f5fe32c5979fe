/**
 * The pure part of plan generation: cleaning the model's reply text of
 * markdown code fences, and reading the three plan fields, with their
 * defaults, out of the decoded reply.
 */
module ReplyCleanup {
  import opened Wrappers
  import opened Text
  import opened Http

  const Fence := "```"

  /** Three backticks start at position `i` of `s`. */
  predicate FenceAt(s: string, i: int) {
    0 <= i && i + 3 <= |s| && s[i] == '`' && s[i + 1] == '`' && s[i + 2] == '`'
  }

  /** The tag "json" starts at position `i` of `s`. */
  predicate JsonAt(s: string, i: int) {
    0 <= i && i + 4 <= |s| && s[i] == 'j' && s[i + 1] == 's' && s[i + 2] == 'o' && s[i + 3] == 'n'
  }

  /** Where an opening fence and its "json" tag, if it has one, end. */
  function TagEnd(s: string): nat {
    if JsonAt(s, 3) then 7 else 3
  }

  /**
   * `re.sub(r"^```(?:json)?\s*", "", s)`: without MULTILINE `^` matches only at
   * the start, so at most one leading fence, an optional "json" tag and the
   * whitespace after them go.
   */
  function DropLeadingFence(s: string): (r: string)
    ensures |r| <= |s|
    ensures !FenceAt(s, 0) ==> r == s
  {
    if FenceAt(s, 0) then TrimStart(s[TagEnd(s)..], IsSpace) else s
  }

  /**
   * After a leading fence, exactly the fence, the "json" tag when it is there
   * and the whole run of whitespace after them are removed.
   */
  lemma LeadingFenceRemoved(s: string) returns (w: string)
    requires FenceAt(s, 0)
    ensures s == s[..TagEnd(s)] + w + DropLeadingFence(s) && All(w, IsSpace)
    ensures DropLeadingFence(s) == [] || !IsSpace(DropLeadingFence(s)[0])
  {
    var k := TagEnd(s);
    w := TrimStartSplit(s[k..], IsSpace);
    FenceDropUnfolds(s);
    SplitAt(s, k);
    JoinThree(s, s[..k], s[k..], w, DropLeadingFence(s));
  }

  lemma FenceDropUnfolds(s: string)
    requires FenceAt(s, 0)
    ensures DropLeadingFence(s) == TrimStart(s[TagEnd(s)..], IsSpace)
  {
  }

  lemma SplitAt(s: string, k: nat)
    requires k <= |s|
    ensures s == s[..k] + s[k..]
  {
  }

  /**
   * `re.sub(r"```$\s*", "", s)`: `$` matches at the very end or before a final
   * newline, so the only possible match is a fence at the end, possibly
   * followed by that newline.
   */
  function DropTrailingFence(s: string): (r: string)
    ensures |r| <= |s|
    ensures r == s[..|r|]
  {
    if FenceAt(s, |s| - 3) then s[..|s| - 3]
    else if FenceAt(s, |s| - 4) && s[|s| - 1] == '\n' then s[..|s| - 4]
    else s
  }

  /** `raw_text.strip()`, both substitutions, and a final `strip()`. */
  function CleanReply(text: string): (cleaned: string)
    ensures cleaned == [] || (!IsSpace(cleaned[0]) && !IsSpace(cleaned[|cleaned| - 1]))
    ensures |cleaned| <= |text|
  {
    var lead := DropLeadingFence(Strip(text));
    var trail := DropTrailingFence(lead);
    assert |trail| <= |lead| <= |Strip(text)| <= |text|;
    Strip(trail)
  }

  /** The steps of the cleanup, one at a time. */
  lemma CleanSteps(text: string, stripped: string, lead: string, trail: string)
    requires stripped == Strip(text) && lead == DropLeadingFence(stripped) && trail == DropTrailingFence(lead)
    ensures CleanReply(text) == Strip(trail)
  {
  }

  /** A reply with no fence at either end comes out as the stripped reply. */
  lemma CleanUnfenced(text: string)
    requires !FenceAt(Strip(text), 0) && !FenceAt(Strip(text), |Strip(text)| - 3)
    ensures CleanReply(text) == Strip(text)
  {
    StrippedLacksNewlineFence(text);
    UnfencedKept(Strip(text));
    StripIdempotent(text);
    StripsOnce(text, Strip(text));
  }

  lemma StripsOnce(text: string, s: string)
    requires s == Strip(text) && DropLeadingFence(s) == s && DropTrailingFence(s) == s && Strip(s) == s
    ensures CleanReply(text) == s
  {
    CleanSteps(text, s, s, s);
  }

  lemma UnfencedKept(s: string)
    requires !FenceAt(s, |s| - 3) && (s == [] || s[|s| - 1] != '\n')
    ensures DropTrailingFence(s) == s
  {
  }

  lemma StripIdempotent(text: string)
    ensures Strip(Strip(text)) == Strip(text)
  {
    TrimIdempotent(text, IsSpace);
  }

  /** A stripped text does not end in a newline, so only a fence at its very end can go. */
  lemma StrippedLacksNewlineFence(text: string)
    ensures Strip(text) == [] || Strip(text)[|Strip(text)| - 1] != '\n'
  {
    assert IsSpace('\n');
  }

  /** Stripping leaves alone a text that begins and ends with a backtick. */
  lemma StripKeepsBackticks(s: string)
    requires s != [] && s[0] == '`' && s[|s| - 1] == '`'
    ensures Strip(s) == s
  {
    TrimKeepsWord(s, IsSpace);
  }

  /**
   * "json" right after a bare fence would be taken for the tag, so the
   * wrapped text must not start with it when the fence has no tag.
   */
  predicate TagFits(tag: string, after: string) {
    tag == "json" || (tag == "" && !JsonAt(after, 0))
  }

  /** The leading fence, its tag and any whitespace after them go together. */
  lemma {:induction false} LeadingFenceOfWrapped(tag: string, w: string, rest: string)
    requires TagFits(tag, w + rest) && All(w, IsSpace)
    ensures DropLeadingFence(Fence + tag + w + rest) == TrimStart(rest, IsSpace)
  {
    var text := Fence + tag + w + rest;
    assert FenceAt(text, 0);
    if tag == "json" {
      assert JsonAt(text, 3);
      assert text[7..] == w + rest;
    } else {
      assert text[3..] == w + rest;
      assert forall k :: 0 <= k < |w + rest| ==> text[3 + k] == (w + rest)[k];
      assert !JsonAt(text, 3);
    }
    TrimStartSkips(w, rest, IsSpace);
  }

  /** A text that does not start with "json" still does not once a non-letter follows it. */
  lemma NotJsonBeforeNonLetter(a: string, b: string)
    requires !JsonAt(a, 0)
    requires b == [] || !IsAsciiLetter(b[0])
    ensures !JsonAt(a + b, 0)
  {
    if |a| >= 4 {
      assert forall k :: 0 <= k < 4 ==> (a + b)[k] == a[k];
    } else if b != [] {
      assert (a + b)[|a|] == b[0];
      assert forall k :: 0 <= k < |a| ==> (a + b)[k] == a[k];
    } else {
      assert a + b == a;
    }
  }

  /** A text that does not start with "json" has no prefix that does. */
  lemma NotJsonPrefix(a: string, b: string)
    requires !JsonAt(a + b, 0)
    ensures !JsonAt(a, 0)
  {
    if |a| >= 4 {
      assert forall k :: 0 <= k < 4 ==> (a + b)[k] == a[k];
    }
  }

  /** A fence after a blank body leaves the fence alone. */
  lemma BlankBodyThenFence(body: string, w: string)
    requires All(body, IsSpace) && All(w, IsSpace)
    ensures TrimStart(body + w + Fence, IsSpace) == Fence
  {
    AllAppend(body, w, IsSpace);
    BlankThenFence(body + w, IsSpace);
  }

  /** Blank text before a fence is skipped up to the fence. */
  lemma BlankThenFence(w: string, ws: char -> bool)
    requires All(w, ws) && !ws('`')
    ensures TrimStart(w + Fence, ws) == Fence
  {
    TrimStartSkips(w, Fence, ws);
    FenceIsKept(ws);
  }

  lemma FenceIsKept(ws: char -> bool)
    requires !ws('`')
    ensures TrimStart(Fence, ws) == Fence
  {
    assert Fence[0] == '`';
  }

  /** A closing fence is dropped and nothing before it. */
  lemma DropsClosingFence(kept: string)
    ensures DropTrailingFence(kept + Fence) == kept
  {
    assert FenceAt(kept + Fence, |kept|);
    assert (kept + Fence)[..|kept|] == kept;
  }

  /** Otherwise the trailing fence goes and the whitespace before it stays. */
  lemma {:induction false} TextThenFence(body: string, w: string)
    requires !All(body, IsSpace)
    ensures DropTrailingFence(TrimStart(body + w + Fence, IsSpace)) == TrimStart(body, IsSpace) + w
  {
    TrimStartStopsEarlyThree(body, w, Fence, IsSpace);
    DropsClosingFence(TrimStart(body, IsSpace) + w);
  }

  lemma {:induction false} TrimStartStopsEarlyThree(a: string, b: string, c: string, ws: char -> bool)
    requires !All(a, ws)
    ensures TrimStart(a + b + c, ws) == (TrimStart(a, ws) + b) + c
  {
    var bc := b + c;
    var t := TrimStart(a, ws);
    assert a + b + c == a + bc;
    assert t + bc == t + b + c;
    TrimStartStopsEarly(a, bc, ws);
  }

  /** Stripping the body with whitespace after it strips the body. */
  lemma {:induction false} StripBodyPadding(body: string, w: string)
    requires !All(body, IsSpace) && All(w, IsSpace)
    ensures Strip(TrimStart(body, IsSpace) + w) == Strip(body)
  {
    var core := TrimStart(body, IsSpace);
    assert core != [] && !IsSpace(core[0]);
    assert TrimStart(core + w, IsSpace) == core + w;
    TrimEndSkips(core, w, IsSpace);
  }

  /**
   * A body wrapped in a "```json" or bare "```" fence and a closing "```",
   * with any whitespace between the fences and the body, comes out as the
   * stripped body.
   */
  lemma {:induction false} CleanFenced(tag: string, w1: string, body: string, w2: string)
    requires TagFits(tag, w1 + body) && All(w1, IsSpace) && All(w2, IsSpace)
    ensures CleanReply(Fence + tag + w1 + body + w2 + Fence) == Strip(body)
  {
    var text := Fence + tag + w1 + body + w2 + Fence;
    assert text[0] == '`' && text[|text| - 1] == '`';
    StripKeepsBackticks(text);
    OpenFenced(tag, w1, body, w2);
    if All(body, IsSpace) {
      FencedBlank(text, body, w2);
    } else {
      FencedText(text, body, w2);
    }
  }

  lemma {:induction false} FencedBlank(text: string, body: string, w2: string)
    requires All(body, IsSpace) && All(w2, IsSpace)
    requires Strip(text) == text && DropLeadingFence(text) == TrimStart(body + w2 + Fence, IsSpace)
    ensures CleanReply(text) == Strip(body)
  {
    BlankBodyThenFence(body, w2);
    FenceLeavesNothing();
    CleanSteps(text, text, Fence, []);
  }

  /** A lone fence is dropped whole. */
  lemma FenceLeavesNothing()
    ensures DropLeadingFence(Fence) == [] && DropTrailingFence(Fence) == [] && Strip([]) == []
  {
    BareFenceDropped("");
    assert Fence + "" == Fence;
  }

  lemma {:induction false} FencedText(text: string, body: string, w2: string)
    requires !All(body, IsSpace) && All(w2, IsSpace)
    requires Strip(text) == text && DropLeadingFence(text) == TrimStart(body + w2 + Fence, IsSpace)
    ensures CleanReply(text) == Strip(body)
  {
    TextThenFence(body, w2);
    StripBodyPadding(body, w2);
    CleanSteps(text, text, TrimStart(body + w2 + Fence, IsSpace), TrimStart(body, IsSpace) + w2);
  }

  /** The opening fence of a fenced body goes with the whitespace after it. */
  lemma {:induction false} OpenFenced(tag: string, w1: string, body: string, w2: string)
    requires TagFits(tag, w1 + body) && All(w1, IsSpace) && All(w2, IsSpace)
    ensures DropLeadingFence(Fence + tag + w1 + body + w2 + Fence) == TrimStart(body + w2 + Fence, IsSpace)
  {
    var rest := body + w2 + Fence;
    assert Fence + tag + w1 + body + w2 + Fence == Fence + tag + w1 + rest;
    if tag == "" {
      var tail := w2 + Fence;
      assert w1 + rest == (w1 + body) + tail;
      assert tail[0] == if w2 == [] then '`' else w2[0];
      NotJsonBeforeNonLetter(w1 + body, tail);
    }
    LeadingFenceOfWrapped(tag, w1, rest);
  }

  /**
   * A reply opened by a fence that is never closed comes out as its stripped
   * body, unless the body itself ends in a fence.
   */
  lemma {:induction false} CleanOpenedOnly(tag: string, w: string, body: string)
    requires TagFits(tag, w + body) && All(w, IsSpace)
    requires !FenceAt(Strip(body), |Strip(body)| - 3)
    ensures CleanReply(Fence + tag + w + body) == Strip(body)
  {
    if All(body, IsSpace) {
      OpenedAllBlank(tag, w, body);
    } else {
      OpenedPadded(tag, w, body);
    }
  }

  lemma {:induction false} OpenedAllBlank(tag: string, w: string, body: string)
    requires (tag == "json" || tag == "") && All(w, IsSpace) && All(body, IsSpace)
    ensures CleanReply(Fence + tag + w + body) == Strip(body)
  {
    AllAppend(w, body, IsSpace);
    OpenedBlank(tag, w + body);
    assert Fence + tag + w + body == Fence + tag + (w + body);
  }

  lemma {:induction false} OpenedPadded(tag: string, w: string, body: string)
    requires TagFits(tag, w + body) && All(w, IsSpace) && !All(body, IsSpace)
    requires !FenceAt(Strip(body), |Strip(body)| - 3)
    ensures CleanReply(Fence + tag + w + body) == Strip(body)
  {
    var p, q := TrimBounds(body, IsSpace);
    StripIsTrim(body);
    StripEnds(body);
    OpenedParts(tag, w, body, p, Strip(body), q);
  }

  lemma StripEnds(s: string)
    requires !All(s, IsSpace)
    ensures Strip(s) != [] && !IsSpace(Strip(s)[0]) && !IsSpace(Strip(s)[|Strip(s)| - 1])
  {
  }

  lemma StripIsTrim(s: string)
    ensures Strip(s) == Trim(s, IsSpace)
  {
  }

  lemma {:induction false} OpenedParts(tag: string, w: string, body: string, p: string, core: string, q: string)
    requires body == p + core + q
    requires TagFits(tag, w + body) && All(w, IsSpace) && All(p, IsSpace) && All(q, IsSpace)
    requires core != [] && !IsSpace(core[0]) && !IsSpace(core[|core| - 1])
    requires !FenceAt(core, |core| - 3)
    ensures CleanReply(Fence + tag + w + body) == core
  {
    AllAppend(w, p, IsSpace);
    OpenedTagFits(tag, w, p, core, q);
    OpenedText(tag, w + p, core, q);
    Regroup(Fence + tag, w, p, core, q);
  }

  lemma OpenedTagFits(tag: string, w: string, p: string, core: string, q: string)
    requires TagFits(tag, w + (p + core + q))
    ensures TagFits(tag, (w + p) + core)
  {
    if tag == "" {
      assert w + (p + core + q) == ((w + p) + core) + q;
      NotJsonPrefix((w + p) + core, q);
    }
  }

  lemma Regroup(a: string, w: string, p: string, core: string, q: string)
    ensures a + w + (p + core + q) == a + (w + p) + core + q
  {
  }

  /** A fence followed by nothing but whitespace leaves nothing. */
  lemma {:induction false} OpenedBlank(tag: string, w: string)
    requires (tag == "json" || tag == "") && All(w, IsSpace)
    ensures CleanReply(Fence + tag + w) == []
  {
    BareFenceStripped(tag, w);
    BareFenceDropped(tag);
    NothingLeft();
    CleanSteps(Fence + tag + w, Fence + tag, [], []);
  }

  lemma NothingLeft()
    ensures DropTrailingFence([]) == [] && Strip([]) == []
  {
  }

  lemma BareFenceStripped(tag: string, w: string)
    requires (tag == "json" || tag == "") && All(w, IsSpace)
    ensures Strip(Fence + tag + w) == Fence + tag
  {
    FenceHead(tag);
    StripOfOpened(Fence + tag, [], w);
    assert Fence + tag + [] == Fence + tag;
  }

  lemma FenceHead(tag: string)
    requires tag == "json" || tag == ""
    ensures (Fence + tag)[0] == '`' && !IsSpace((Fence + tag)[|Fence + tag| - 1])
  {
    if tag == "json" {
      assert (Fence + tag)[6] == 'n';
    } else {
      assert Fence + tag == Fence;
    }
  }

  lemma BareFenceDropped(tag: string)
    requires tag == "json" || tag == ""
    ensures DropLeadingFence(Fence + tag) == []
  {
    assert Fence + tag == Fence + tag + [] + [];
    LeadingFenceOfWrapped(tag, [], []);
  }

  /** After an unclosed fence a body without whitespace at its ends is kept whole. */
  lemma {:induction false} OpenedText(tag: string, w: string, core: string, pad: string)
    requires TagFits(tag, w + core) && All(w, IsSpace) && All(pad, IsSpace)
    requires core != [] && !IsSpace(core[0]) && !IsSpace(core[|core| - 1])
    requires !FenceAt(core, |core| - 3)
    ensures CleanReply(Fence + tag + w + core + pad) == core
  {
    var head := Fence + tag + w;
    assert head[0] == '`';
    StripOfOpened(head, core, pad);
    LeadingFenceOfWrapped(tag, w, core);
    WordKept(core);
    CleanSteps(head + core + pad, head + core, core, core);
  }

  /** A text without whitespace or a fence at its ends passes the last three steps unchanged. */
  lemma WordKept(core: string)
    requires core != [] && !IsSpace(core[0]) && !IsSpace(core[|core| - 1])
    requires !FenceAt(core, |core| - 3)
    ensures TrimStart(core, IsSpace) == core && DropTrailingFence(core) == core && Strip(core) == core
  {
    assert IsSpace('\n');
    TrimKeepsWord(core, IsSpace);
  }

  /** Stripping a text that opens with a backtick only removes whitespace at its end. */
  lemma StripOfOpened(head: string, core: string, pad: string)
    requires head != [] && head[0] == '`'
    requires (core == [] && !IsSpace(head[|head| - 1])) || (core != [] && !IsSpace(core[|core| - 1]))
    requires All(pad, IsSpace)
    ensures Strip(head + core + pad) == head + core
  {
    TrimOfOpened(head, core, pad, IsSpace);
  }

  lemma {:induction false} TrimOfOpened(head: string, core: string, pad: string, ws: char -> bool)
    requires head != [] && head[0] == '`' && !ws('`')
    requires (core == [] && !ws(head[|head| - 1])) || (core != [] && !ws(core[|core| - 1]))
    requires All(pad, ws)
    ensures Trim(head + core + pad, ws) == head + core
  {
    var kept := head + core;
    assert (kept + pad)[0] == '`';
    assert TrimStart(kept + pad, ws) == kept + pad;
    TrimEndSkips(kept, pad, ws);
    assert kept[|kept| - 1] == if core == [] then head[|head| - 1] else core[|core| - 1];
    assert TrimEnd(kept, ws) == kept;
  }

  /**
   * A reply closed by a fence that was never opened comes out as its stripped
   * body, unless the body itself starts with a fence.
   */
  lemma {:induction false} CleanClosedOnly(body: string, w: string)
    requires All(w, IsSpace)
    requires !FenceAt(Strip(body), 0)
    ensures CleanReply(body + w + Fence) == Strip(body)
  {
    if All(body, IsSpace) {
      ClosedBlank(body, w);
    } else {
      ClosedPadded(body, w);
    }
  }

  lemma {:induction false} ClosedPadded(body: string, w: string)
    requires All(w, IsSpace) && !All(body, IsSpace)
    requires !FenceAt(Strip(body), 0)
    ensures CleanReply(body + w + Fence) == Strip(body)
  {
    var p, q := TrimBounds(body, IsSpace);
    StripIsTrim(body);
    StripEnds(body);
    ClosedParts(body, w, p, Strip(body), q);
  }

  lemma {:induction false} ClosedParts(body: string, w: string, p: string, core: string, q: string)
    requires body == p + core + q
    requires All(w, IsSpace) && All(p, IsSpace) && All(q, IsSpace)
    requires core != [] && !IsSpace(core[0]) && !IsSpace(core[|core| - 1])
    requires !FenceAt(core, 0)
    ensures CleanReply(body + w + Fence) == core
  {
    AllAppend(q, w, IsSpace);
    ClosedText(p, core, q + w);
    RegroupClosed(p, core, q, w);
  }

  lemma RegroupClosed(p: string, core: string, q: string, w: string)
    ensures (p + core + q) + w + Fence == p + (core + (q + w)) + Fence
  {
  }

  /** Whitespace and then a fence leaves nothing. */
  lemma {:induction false} ClosedBlank(body: string, w: string)
    requires All(body, IsSpace) && All(w, IsSpace)
    ensures CleanReply(body + w + Fence) == []
  {
    BlankBodyThenFence(body, w);
    FenceStripped(body + w + Fence);
    FenceLeavesNothing();
    CleanSteps(body + w + Fence, Fence, [], []);
  }

  lemma FenceStripped(text: string)
    requires TrimStart(text, IsSpace) == Fence
    ensures Strip(text) == Fence
  {
    assert TrimEnd(Fence, IsSpace) == Fence;
  }

  /** Before a fence that was never opened, a body without whitespace at its ends is kept whole. */
  lemma {:induction false} ClosedText(lead: string, core: string, pad: string)
    requires All(lead, IsSpace) && All(pad, IsSpace)
    requires core != [] && !IsSpace(core[0]) && !IsSpace(core[|core| - 1])
    requires !FenceAt(core, 0)
    ensures CleanReply(lead + (core + pad) + Fence) == core
  {
    var t := core + pad;
    StripOfClosed(lead, t);
    TickRun(core, pad);
    if FenceAt(t + Fence, 0) {
      assert t == core;
      ClosedTicks(lead + core + Fence, core);
    } else {
      ClosedWord(lead, core, pad);
    }
  }

  /**
   * A text that is not itself opened by a fence can only look opened once a
   * fence follows when it is one or two backticks with nothing after them.
   */
  lemma TickRun(core: string, pad: string)
    requires core != [] && All(pad, IsSpace)
    ensures FenceAt(core + pad + Fence, 0) && !FenceAt(core, 0) ==>
      pad == [] && (core == "`" || core == "``")
  {
    var t := core + pad + Fence;
    if |core| >= 3 {
      assert t[0] == core[0] && t[1] == core[1] && t[2] == core[2];
    } else if pad != [] {
      assert t[|core|] == pad[0];
    } else if FenceAt(t, 0) {
      assert t[0] == core[0];
      if |core| == 2 {
        assert t[1] == core[1];
      }
    }
  }

  /** One or two backticks before a fence are kept. */
  lemma {:induction false} ClosedTicks(text: string, core: string)
    requires core == "`" || core == "``"
    requires Strip(text) == core + Fence
    ensures CleanReply(text) == core
  {
    TicksOpened(core);
    TicksKept(core);
    CleanSteps(text, core + Fence, core, core);
  }

  lemma TicksOpened(core: string)
    requires core == "`" || core == "``"
    ensures DropLeadingFence(core + Fence) == core
  {
    assert core + Fence == Fence + "" + [] + core;
    LeadingFenceOfWrapped("", [], core);
    assert TrimStart(core, IsSpace) == core;
  }

  lemma TicksKept(core: string)
    requires core == "`" || core == "``"
    ensures DropTrailingFence(core) == core && Strip(core) == core
  {
    TrimKeepsWord(core, IsSpace);
  }

  /** A body that does not look like an opening fence loses only the closing one. */
  lemma {:induction false} ClosedWord(lead: string, core: string, pad: string)
    requires All(pad, IsSpace)
    requires core != [] && !IsSpace(core[0]) && !IsSpace(core[|core| - 1])
    requires !FenceAt(core + pad + Fence, 0)
    requires Strip(lead + (core + pad) + Fence) == core + pad + Fence
    ensures CleanReply(lead + (core + pad) + Fence) == core
  {
    var t := core + pad;
    DropsClosingFence(t);
    PaddedWord(core, pad);
    CleanSteps(lead + t + Fence, t + Fence, t + Fence, t);
  }

  lemma PaddedWord(core: string, pad: string)
    requires All(pad, IsSpace)
    requires core != [] && !IsSpace(core[0]) && !IsSpace(core[|core| - 1])
    ensures Strip(core + pad) == core
  {
    TrimIgnoresPadding(core, [], pad, IsSpace);
    assert [] + core + pad == core + pad;
    TrimKeepsWord(core, IsSpace);
  }

  /** Stripping a text that closes with a fence only removes whitespace at its start. */
  lemma StripOfClosed(lead: string, t: string)
    requires All(lead, IsSpace) && t != [] && !IsSpace(t[0])
    ensures Strip(lead + t + Fence) == t + Fence
  {
    TrimOfClosed(lead, t, IsSpace);
  }

  lemma {:induction false} TrimOfClosed(lead: string, t: string, ws: char -> bool)
    requires All(lead, ws) && t != [] && !ws(t[0]) && !ws('`')
    ensures Trim(lead + t + Fence, ws) == t + Fence
  {
    var closed := t + Fence;
    assert lead + t + Fence == lead + closed;
    TrimStartSkips(lead, closed, ws);
    assert closed[0] == t[0];
    assert TrimStart(closed, ws) == closed;
    assert closed[|closed| - 1] == '`';
    assert TrimEnd(closed, ws) == closed;
  }

  /** What the model's reply yields once it has been received. */
  datatype Generated =
    | UpstreamFailed(status: int, details: string)  // a non-200 status, with the response body
    | Unusable                               // no reply text, no JSON, or JSON that is not an object
    | Fields(summary: Json, roadmap: Json, quizQuestions: Json)

  /**
   * The model's reply: its status, its body as text, and the text of its
   * first candidate, which is None when the body has no candidate text.
   */
  datatype UpstreamReply = UpstreamReply(status: int, body: string, text: Option<string>)

  /**
   * One model call, one parse: a non-200 status is passed on, otherwise the
   * cleaned text is decoded by `loads` (the JSON decoder) and the three keys
   * are read with defaults "", [] and [].
   */
  function ReadReply(reply: UpstreamReply, loads: string -> Option<Json>): (g: Generated)
    ensures reply.status != 200 ==> g == UpstreamFailed(reply.status, reply.body)
    ensures reply.status == 200 && !g.Fields? ==> g == Unusable
    ensures g.Fields? <==>
      reply.status == 200 && reply.text.Some?
      && loads(CleanReply(reply.text.value)).Some? && loads(CleanReply(reply.text.value)).value.JObj?
    ensures g.Fields? ==>
      var fields := loads(CleanReply(reply.text.value)).value.fields;
      && ("summary" !in fields ==> g.summary == JStr(""))
      && ("roadmap" !in fields ==> g.roadmap == JArr([]))
      && ("quiz_questions" !in fields ==> g.quizQuestions == JArr([]))
      && ("summary" in fields ==> g.summary == fields["summary"])
      && ("roadmap" in fields ==> g.roadmap == fields["roadmap"])
      && ("quiz_questions" in fields ==> g.quizQuestions == fields["quiz_questions"])
  {
    if reply.status != 200 then UpstreamFailed(reply.status, reply.body)
    else if reply.text.None? then Unusable
    else
      match loads(CleanReply(reply.text.value))
      case Some(JObj(fields)) =>
        Fields(
          LookupOr(fields, "summary", JStr("")),
          LookupOr(fields, "roadmap", JArr([])),
          LookupOr(fields, "quiz_questions", JArr([])))
      case _ => Unusable
  }
}
