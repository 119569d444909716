/**
 * Text helpers of the server: extraction of `@name` mentions, the pass that turns known
 * mentions into profile links, HTML escaping with line breaks, the file-extension
 * whitelist and the relative "time ago" wording.
 *
 * Python's `\w` is Unicode-aware; it is a parameter `isWord` here.
 */
module TextUtils {
  import opened Wrappers
  import opened Strings
  import opened Models

  // ---------------------------------------------------------------- scanning for `@(\w+)`

  /** The end of the run of word characters starting at i. */
  function RunEnd(s: string, isWord: char -> bool, i: nat): (j: nat)
    requires i <= |s|
    ensures i <= j <= |s|
    ensures forall k :: i <= k < j ==> isWord(s[k])
    ensures j == |s| || !isWord(s[j])
    decreases |s| - i
  {
    if i < |s| && isWord(s[i]) then RunEnd(s, isWord, i + 1) else i
  }

  /** The pattern `@(\w+)` can start at position i. */
  predicate MentionAt(s: string, isWord: char -> bool, i: int) {
    0 <= i && i + 1 < |s| && s[i] == '@' && isWord(s[i + 1])
  }

  /** A match: `@` at start, the name is s[start + 1 .. end]. */
  datatype Span = Span(start: nat, end: nat)

  /** A match of `@(\w+)`: an `@`, then a non-empty maximal run of word characters. */
  predicate ValidSpan(s: string, isWord: char -> bool, sp: Span) {
    && sp.start + 1 < sp.end <= |s|
    && s[sp.start] == '@'
    && (forall m :: sp.start < m < sp.end ==> isWord(s[m]))
    && (sp.end == |s| || !isWord(s[sp.end]))
  }

  /** The non-overlapping matches found scanning left to right from i, as `re.findall` does. */
  function ScanFrom(s: string, isWord: char -> bool, i: nat): (spans: seq<Span>)
    requires i <= |s|
    ensures forall k :: 0 <= k < |spans| ==> i <= spans[k].start && ValidSpan(s, isWord, spans[k])
    ensures forall k :: 0 <= k < |spans| - 1 ==> spans[k].end <= spans[k + 1].start
    decreases |s| - i
  {
    if i == |s| then []
    else if MentionAt(s, isWord, i) then
      var e := RunEnd(s, isWord, i + 1);
      [Span(i, e)] + ScanFrom(s, isWord, e)
    else ScanFrom(s, isWord, i + 1)
  }

  function SpanName(s: string, sp: Span): string
    requires sp.start < sp.end <= |s|
  {
    s[sp.start + 1..sp.end]
  }

  /** `re.findall(r'@(\w+)', text)` */
  function FindAll(s: string, isWord: char -> bool): (names: seq<string>)
    ensures var spans := ScanFrom(s, isWord, 0);
            |names| == |spans| && forall k :: 0 <= k < |names| ==> names[k] == SpanName(s, spans[k])
  {
    var spans := ScanFrom(s, isWord, 0);
    seq(|spans|, k requires 0 <= k < |spans| => SpanName(s, spans[k]))
  }

  /**
   * The scan misses no mention: when `@` is not itself a word character, every position
   * where `@` is followed by a word character starts a match.
   */
  lemma {:induction false} ScanFindsEveryMention(s: string, isWord: char -> bool, i: nat, p: int)
    requires !isWord('@')
    requires i <= p && MentionAt(s, isWord, p)
    ensures exists k :: 0 <= k < |ScanFrom(s, isWord, i)| && ScanFrom(s, isWord, i)[k].start == p
    decreases |s| - i
  {
    var spans := ScanFrom(s, isWord, i);
    if MentionAt(s, isWord, i) {
      var e := RunEnd(s, isWord, i + 1);
      assert spans == [Span(i, e)] + ScanFrom(s, isWord, e);
      if i == p {
        assert spans[0].start == p;
      } else {
        assert e <= p;
        ScanFindsEveryMention(s, isWord, e, p);
        var k :| 0 <= k < |ScanFrom(s, isWord, e)| && ScanFrom(s, isWord, e)[k].start == p;
        assert spans[k + 1].start == p;
      }
    } else {
      ScanFindsEveryMention(s, isWord, i + 1, p);
    }
  }

  // ---------------------------------------------------------------- parse_mentions

  /** The Mention record a name yields: the named user exists and is not the author. */
  function MentionFor(users: seq<User>, name: string, currentUserId: nat,
                      postId: Option<nat>, commentId: Option<nat>): (r: Option<Mention>)
    ensures r.Some? ==> && r.value.postId == postId && r.value.commentId == commentId
                        && r.value.mentionerUserId == currentUserId
                        && r.value.mentionedUserId != currentUserId
                        && exists k :: 0 <= k < |users| && users[k].username == name
                                       && users[k].id == r.value.mentionedUserId
    ensures (exists k :: && 0 <= k < |users| && users[k].username == name && users[k].id != currentUserId
                         && forall j :: 0 <= j < k ==> users[j].username != name) ==> r.Some?
  {
    UserByNameFound(users, name);
    match UserByName(users, name)
    case None => None
    case Some(k) =>
      if users[k].id != currentUserId then Some(Mention(postId, commentId, users[k].id, currentUserId))
      else None
  }

  /** The mention records `parse_mentions` returns, as a set. */
  function ExpectedMentions(text: string, isWord: char -> bool, users: seq<User>, currentUserId: nat,
                            postId: Option<nat>, commentId: Option<nat>): set<Mention>
  {
    var names := FindAll(text, isWord);
    set n | n in names && MentionFor(users, n, currentUserId, postId, commentId).Some?
          :: MentionFor(users, n, currentUserId, postId, commentId).value
  }

  /**
   * `parse_mentions`: one Mention per distinct matched name whose user exists and is not
   * the author, visited in an unspecified order.
   */
  method ParseMentions(text: string, isWord: char -> bool, currentUserId: nat,
                       postId: Option<nat>, commentId: Option<nat>, users: seq<User>)
    returns (mentions: seq<Mention>)
    ensures (set m | m in mentions) == ExpectedMentions(text, isWord, users, currentUserId, postId, commentId)
    ensures forall k :: 0 <= k < |mentions| ==>
              && mentions[k].postId == postId && mentions[k].commentId == commentId
              && mentions[k].mentionerUserId == currentUserId
              && mentions[k].mentionedUserId != currentUserId
    ensures UserIdsIncreasing(users) ==>
              forall i, j :: 0 <= i < j < |mentions| ==> mentions[i].mentionedUserId != mentions[j].mentionedUserId
  {
    var names := FindAll(text, isWord);
    var nameSet := set k | 0 <= k < |names| :: names[k];
    var pending := nameSet;
    ghost var done: set<string> := {};
    ghost var targets: seq<string> := [];
    mentions := [];
    while pending != {}
      invariant pending + done == nameSet && pending !! done
      invariant Collected(users, currentUserId, postId, commentId, done, targets, mentions)
      decreases pending
    {
      var username :| username in pending;
      CollectStep(users, currentUserId, postId, commentId, done, targets, mentions, username);
      var found := UserByName(users, username);
      if found.Some? && users[found.value].id != currentUserId {
        mentions := mentions + [Mention(postId, commentId, users[found.value].id, currentUserId)];
        targets := targets + [username];
      }
      pending := pending - {username};
      done := done + {username};
    }
    assert forall n :: n in names <==> n in done;
    CollectedAll(names, users, currentUserId, postId, commentId, done, targets, mentions);
    if UserIdsIncreasing(users) {
      CollectedDistinct(users, currentUserId, postId, commentId, done, targets, mentions);
    }
  }

  /**
   * What the loop of `parse_mentions` has gathered: one record per name visited that yields
   * one, in the order of the names recorded in targets, each name once.
   */
  ghost predicate Collected(users: seq<User>, currentUserId: nat, postId: Option<nat>, commentId: Option<nat>,
                            done: set<string>, targets: seq<string>, mentions: seq<Mention>)
  {
    && |targets| == |mentions|
    && (forall k :: 0 <= k < |mentions| ==>
          targets[k] in done && MentionFor(users, targets[k], currentUserId, postId, commentId) == Some(mentions[k]))
    && (forall n :: n in done && MentionFor(users, n, currentUserId, postId, commentId).Some? ==> n in targets)
    && (forall i, j :: 0 <= i < j < |targets| ==> targets[i] != targets[j])
  }

  /** Visiting one more name adds its record, when it yields one, and keeps the rest. */
  lemma CollectStep(users: seq<User>, currentUserId: nat, postId: Option<nat>, commentId: Option<nat>,
                    done: set<string>, targets: seq<string>, mentions: seq<Mention>, name: string)
    requires Collected(users, currentUserId, postId, commentId, done, targets, mentions) && name !in done
    ensures var r := MentionFor(users, name, currentUserId, postId, commentId);
            var found := UserByName(users, name);
            && (r.Some? <==> found.Some? && users[found.value].id != currentUserId)
            && (r.Some? ==> r.value == Mention(postId, commentId, users[found.value].id, currentUserId))
            && Collected(users, currentUserId, postId, commentId, done + {name},
                         if r.Some? then targets + [name] else targets,
                         if r.Some? then mentions + [r.value] else mentions)
  {
    var r := MentionFor(users, name, currentUserId, postId, commentId);
    if r.Some? {
      var t := targets + [name];
      var m := mentions + [r.value];
      assert forall k :: 0 <= k < |mentions| ==> t[k] == targets[k] && m[k] == mentions[k];
    }
  }

  lemma CollectedAll(names: seq<string>, users: seq<User>, currentUserId: nat, postId: Option<nat>,
                     commentId: Option<nat>, done: set<string>, targets: seq<string>, mentions: seq<Mention>)
    requires forall n :: n in names <==> n in done
    requires Collected(users, currentUserId, postId, commentId, done, targets, mentions)
    ensures (set m | m in mentions) ==
            (set n | n in names && MentionFor(users, n, currentUserId, postId, commentId).Some?
                   :: MentionFor(users, n, currentUserId, postId, commentId).value)
  {
    var expected := set n | n in names && MentionFor(users, n, currentUserId, postId, commentId).Some?
                          :: MentionFor(users, n, currentUserId, postId, commentId).value;
    forall m | m in mentions ensures m in expected {
      var k :| 0 <= k < |mentions| && mentions[k] == m;
      assert targets[k] in names;
    }
    forall m | m in expected ensures m in mentions {
      var n :| n in names && MentionFor(users, n, currentUserId, postId, commentId).Some?
               && MentionFor(users, n, currentUserId, postId, commentId).value == m;
      var k :| 0 <= k < |targets| && targets[k] == n;
      assert mentions[k] == m;
    }
  }

  lemma CollectedDistinct(users: seq<User>, currentUserId: nat, postId: Option<nat>, commentId: Option<nat>,
                          done: set<string>, targets: seq<string>, mentions: seq<Mention>)
    requires UserIdsIncreasing(users)
    requires Collected(users, currentUserId, postId, commentId, done, targets, mentions)
    ensures forall i, j :: 0 <= i < j < |mentions| ==> mentions[i].mentionedUserId != mentions[j].mentionedUserId
  {
    forall i, j | 0 <= i < j < |mentions|
      ensures mentions[i].mentionedUserId != mentions[j].mentionedUserId
    {
      assert MentionFor(users, targets[i], currentUserId, postId, commentId).Some?;
      assert MentionFor(users, targets[j], currentUserId, postId, commentId).Some?;
      var a := UserByName(users, targets[i]).value;
      var b := UserByName(users, targets[j]).value;
      assert users[a].username == targets[i] && users[b].username == targets[j];
      assert mentions[i].mentionedUserId == users[a].id && mentions[j].mentionedUserId == users[b].id;
      assert a != b;
    }
  }

  // ---------------------------------------------------------------- highlight_mentions

  /** The profile link of a mentioned user. */
  function MentionLink(id: nat, name: string): string {
    "<a href=\"/user/" + NatToString(id) + "\" class=\"mention\">@" + name + "</a>"
  }

  /** The text a match `@name` is replaced by: a profile link when the user exists, else itself. */
  function Replacement(users: seq<User>, name: string): (r: string)
    ensures UserByName(users, name).None? ==> r == "@" + name
    ensures UserByName(users, name).Some? ==> r == MentionLink(users[UserByName(users, name).value].id, name)
  {
    match UserByName(users, name)
    case None => "@" + name
    case Some(k) => MentionLink(users[k].id, name)
  }

  /** `re.sub(r'@(\w+)', replace_mention, text)`, rewriting while scanning. */
  function HighlightFrom(s: string, isWord: char -> bool, users: seq<User>, i: nat): string
    requires i <= |s|
    decreases |s| - i
  {
    if i == |s| then ""
    else if MentionAt(s, isWord, i) then
      var e := RunEnd(s, isWord, i + 1);
      Replacement(users, s[i + 1..e]) + HighlightFrom(s, isWord, users, e)
    else [s[i]] + HighlightFrom(s, isWord, users, i + 1)
  }

  function HighlightMentions(s: string, isWord: char -> bool, users: seq<User>): string {
    HighlightFrom(s, isWord, users, 0)
  }

  /** Matches in order, inside s, not before i. */
  predicate Ordered(s: string, i: nat, spans: seq<Span>)
    decreases |spans|
  {
    spans == [] || (i <= spans[0].start < spans[0].end <= |s| && Ordered(s, spans[0].end, spans[1..]))
  }

  /** The text between matches copied unchanged, every match replaced by its replacement. */
  function Render(s: string, users: seq<User>, i: nat, spans: seq<Span>): string
    requires i <= |s| && Ordered(s, i, spans)
    decreases |spans|
  {
    if spans == [] then s[i..]
    else s[i..spans[0].start] + Replacement(users, SpanName(s, spans[0]))
         + Render(s, users, spans[0].end, spans[1..])
  }

  /** The matches of the scan are in order and inside the text. */
  lemma {:induction false} ScanOrdered(s: string, isWord: char -> bool, i: nat)
    requires i <= |s|
    ensures Ordered(s, i, ScanFrom(s, isWord, i))
    decreases |s| - i
  {
    if i < |s| {
      if MentionAt(s, isWord, i) {
        var e := RunEnd(s, isWord, i + 1);
        var spans := [Span(i, e)] + ScanFrom(s, isWord, e);
        assert spans[1..] == ScanFrom(s, isWord, e);
        ScanOrdered(s, isWord, e);
      } else {
        ScanOrdered(s, isWord, i + 1);
        OrderedFromEarlier(s, i, i + 1, ScanFrom(s, isWord, i + 1));
      }
    }
  }

  /** The rewrite is the substitution of every match of `@(\w+)` and changes nothing else. */
  lemma {:induction false} HighlightIsSubstitution(s: string, isWord: char -> bool, users: seq<User>, i: nat)
    requires i <= |s|
    ensures Ordered(s, i, ScanFrom(s, isWord, i))
    ensures HighlightFrom(s, isWord, users, i) == Render(s, users, i, ScanFrom(s, isWord, i))
    decreases |s| - i
  {
    ScanOrdered(s, isWord, i);
    if i < |s| {
      if MentionAt(s, isWord, i) {
        var e := RunEnd(s, isWord, i + 1);
        HighlightIsSubstitution(s, isWord, users, e);
        MentionStep(s, isWord, users, i, e);
      } else {
        HighlightIsSubstitution(s, isWord, users, i + 1);
        PlainStep(s, isWord, users, i);
      }
    }
  }

  lemma MentionStep(s: string, isWord: char -> bool, users: seq<User>, i: nat, e: nat)
    requires i < |s| && MentionAt(s, isWord, i) && e == RunEnd(s, isWord, i + 1)
    requires Ordered(s, e, ScanFrom(s, isWord, e)) && Ordered(s, i, ScanFrom(s, isWord, i))
    requires HighlightFrom(s, isWord, users, e) == Render(s, users, e, ScanFrom(s, isWord, e))
    ensures HighlightFrom(s, isWord, users, i) == Render(s, users, i, ScanFrom(s, isWord, i))
  {
    RenderAtMention(s, isWord, users, i, e);
  }

  /** Rendering from a match: the replacement of its name, then the rendering after it. */
  lemma RenderAtMention(s: string, isWord: char -> bool, users: seq<User>, i: nat, e: nat)
    requires i < |s| && MentionAt(s, isWord, i) && e == RunEnd(s, isWord, i + 1)
    requires Ordered(s, e, ScanFrom(s, isWord, e))
    ensures Ordered(s, i, ScanFrom(s, isWord, i))
    ensures Render(s, users, i, ScanFrom(s, isWord, i)) == Replacement(users, s[i + 1..e]) + Render(s, users, e, ScanFrom(s, isWord, e))
  {
    ScanAtMention(s, isWord, i);
    ScanOrdered(s, isWord, i);
    RenderHead(s, users, i, ScanFrom(s, isWord, i));
  }

  /** At a match the scan records it and resumes after the name. */
  lemma ScanAtMention(s: string, isWord: char -> bool, i: nat)
    requires i < |s| && MentionAt(s, isWord, i)
    ensures var spans := ScanFrom(s, isWord, i);
            spans != [] && spans[0] == Span(i, RunEnd(s, isWord, i + 1))
            && spans[1..] == ScanFrom(s, isWord, RunEnd(s, isWord, i + 1))
  {
    var e := RunEnd(s, isWord, i + 1);
    assert ScanFrom(s, isWord, i) == [Span(i, e)] + ScanFrom(s, isWord, e);
  }

  /** Rendering from a first match: its replacement, then the rest. */
  lemma RenderHead(s: string, users: seq<User>, i: nat, spans: seq<Span>)
    requires spans != [] && i == spans[0].start && Ordered(s, i, spans)
    ensures Render(s, users, i, spans) == Replacement(users, s[i + 1..spans[0].end]) + Render(s, users, spans[0].end, spans[1..])
  {
    EmptySliceUnit(s, i, Replacement(users, s[i + 1..spans[0].end]) + Render(s, users, spans[0].end, spans[1..]));
  }

  lemma EmptySliceUnit(s: string, i: nat, t: string)
    requires i <= |s|
    ensures s[i..i] + t == t
  {
    assert s[i..i] == "";
  }

  lemma PlainStep(s: string, isWord: char -> bool, users: seq<User>, i: nat)
    requires i < |s| && !MentionAt(s, isWord, i)
    requires Ordered(s, i + 1, ScanFrom(s, isWord, i + 1)) && Ordered(s, i, ScanFrom(s, isWord, i))
    requires HighlightFrom(s, isWord, users, i + 1) == Render(s, users, i + 1, ScanFrom(s, isWord, i + 1))
    ensures HighlightFrom(s, isWord, users, i) == Render(s, users, i, ScanFrom(s, isWord, i))
  {
    var spans := ScanFrom(s, isWord, i + 1);
    assert ScanFrom(s, isWord, i) == spans;
    assert HighlightFrom(s, isWord, users, i) == [s[i]] + HighlightFrom(s, isWord, users, i + 1);
    RenderOneEarlier(s, users, i, spans);
  }

  /** Starting one character earlier puts that character in front of the rendering. */
  lemma RenderOneEarlier(s: string, users: seq<User>, i: nat, spans: seq<Span>)
    requires i < |s| && Ordered(s, i + 1, spans)
    ensures Ordered(s, i, spans)
    ensures Render(s, users, i, spans) == [s[i]] + Render(s, users, i + 1, spans)
  {
    OrderedFromEarlier(s, i, i + 1, spans);
    if spans == [] {
      assert s[i..] == [s[i]] + s[i + 1..];
    } else {
      RenderGapOneEarlier(s, users, i, spans);
    }
  }

  lemma RenderGapOneEarlier(s: string, users: seq<User>, i: nat, spans: seq<Span>)
    requires i < |s| && spans != [] && Ordered(s, i + 1, spans) && Ordered(s, i, spans)
    ensures Render(s, users, i, spans) == [s[i]] + Render(s, users, i + 1, spans)
  {
    var tail := RenderTail(s, users, spans);
    RenderUnfold(s, users, i, spans);
    RenderUnfold(s, users, i + 1, spans);
    ConsGap(s, i, spans[0].start, tail);
  }

  function RenderTail(s: string, users: seq<User>, spans: seq<Span>): string
    requires spans != [] && spans[0].start < spans[0].end <= |s| && Ordered(s, spans[0].end, spans[1..])
  {
    Replacement(users, SpanName(s, spans[0])) + Render(s, users, spans[0].end, spans[1..])
  }

  lemma RenderUnfold(s: string, users: seq<User>, i: nat, spans: seq<Span>)
    requires i <= |s| && spans != [] && Ordered(s, i, spans)
    ensures Render(s, users, i, spans) == s[i..spans[0].start] + RenderTail(s, users, spans)
  {
  }

  lemma ConsGap(s: string, i: nat, j: nat, tail: string)
    requires i < j <= |s|
    ensures s[i..j] + tail == [s[i]] + (s[i + 1..j] + tail)
  {
    assert s[i..j] == [s[i]] + s[i + 1..j];
  }

  lemma OrderedFromEarlier(s: string, i: nat, j: nat, spans: seq<Span>)
    requires i <= j && Ordered(s, j, spans)
    ensures Ordered(s, i, spans)
  {
  }

  /** Matches from i on whose name is not registered are left as they are, and so is the text between. */
  lemma {:induction false} HighlightUnknownFrom(s: string, isWord: char -> bool, users: seq<User>, i: nat)
    requires i <= |s|
    requires forall k :: 0 <= k < |ScanFrom(s, isWord, i)| ==>
               !UsernameTaken(users, SpanName(s, ScanFrom(s, isWord, i)[k]))
    ensures HighlightFrom(s, isWord, users, i) == s[i..]
    decreases |s| - i
  {
    if i < |s| {
      if MentionAt(s, isWord, i) {
        var e := RunEnd(s, isWord, i + 1);
        UnknownTail(s, isWord, users, i, e);
        HighlightUnknownFrom(s, isWord, users, e);
        UnknownMentionStep(s, isWord, users, i, e);
      } else {
        assert ScanFrom(s, isWord, i) == ScanFrom(s, isWord, i + 1);
        HighlightUnknownFrom(s, isWord, users, i + 1);
        assert s[i..] == [s[i]] + s[i + 1..];
      }
    }
  }

  lemma UnknownTail(s: string, isWord: char -> bool, users: seq<User>, i: nat, e: nat)
    requires i < |s| && MentionAt(s, isWord, i) && e == RunEnd(s, isWord, i + 1)
    requires forall k :: 0 <= k < |ScanFrom(s, isWord, i)| ==>
               !UsernameTaken(users, SpanName(s, ScanFrom(s, isWord, i)[k]))
    ensures !UsernameTaken(users, s[i + 1..e])
    ensures forall k :: 0 <= k < |ScanFrom(s, isWord, e)| ==>
               !UsernameTaken(users, SpanName(s, ScanFrom(s, isWord, e)[k]))
  {
    ScanAtMention(s, isWord, i);
    var spans := ScanFrom(s, isWord, i);
    assert forall k :: 1 <= k < |spans| ==> spans[1..][k - 1] == spans[k];
  }

  lemma UnknownMentionStep(s: string, isWord: char -> bool, users: seq<User>, i: nat, e: nat)
    requires i < |s| && MentionAt(s, isWord, i) && e == RunEnd(s, isWord, i + 1)
    requires !UsernameTaken(users, s[i + 1..e])
    requires HighlightFrom(s, isWord, users, e) == s[e..]
    ensures HighlightFrom(s, isWord, users, i) == s[i..]
  {
    var name := s[i + 1..e];
    UserByNameFound(users, name);
    SplitAtMention(s, i, e);
  }

  /** The text from an `@` is the `@`, the name after it, and what follows the name. */
  lemma SplitAtMention(s: string, i: nat, e: nat)
    requires i < e <= |s| && s[i] == '@'
    ensures s[i..] == "@" + s[i + 1..e] + s[e..]
  {
    assert s[i..] == [s[i]] + s[i + 1..];
    assert s[i + 1..] == s[i + 1..e] + s[e..];
  }

  /** With no matched name registered, the text comes back unchanged. */
  lemma HighlightUnknownNames(s: string, isWord: char -> bool, users: seq<User>)
    requires forall n :: n in FindAll(s, isWord) ==> !UsernameTaken(users, n)
    ensures HighlightMentions(s, isWord, users) == s
  {
    var spans := ScanFrom(s, isWord, 0);
    assert forall k :: 0 <= k < |spans| ==> SpanName(s, spans[k]) == FindAll(s, isWord)[k];
    HighlightUnknownFrom(s, isWord, users, 0);
  }

  // ---------------------------------------------------------------- sanitize_html

  /** One character of `html.escape(text)` (quote=True), then the newline rule. */
  function SanitizeChar(c: char): string {
    match c
    case '&' => "&amp;"
    case '<' => "&lt;"
    case '>' => "&gt;"
    case '"' => "&quot;"
    case '\'' => "&#x27;"
    case '\n' => "<br>"
    case _ => [c]
  }

  // The replacements of `html.escape`, in its order: `&` first, so no entity is escaped twice.
  function EscapeAmp(s: string): string { ReplaceAll(s, '&', "&amp;") }
  function EscapeLt(s: string): string { ReplaceAll(EscapeAmp(s), '<', "&lt;") }
  function EscapeGt(s: string): string { ReplaceAll(EscapeLt(s), '>', "&gt;") }
  function EscapeQuot(s: string): string { ReplaceAll(EscapeGt(s), '"', "&quot;") }

  /** `html.escape(text)` with quote=True. */
  function HtmlEscape(s: string): string { ReplaceAll(EscapeQuot(s), '\'', "&#x27;") }

  /** `sanitize_html`: `html.escape`, then every `\n` to `<br>`. */
  function SanitizeHtml(s: string): string {
    ReplaceAll(HtmlEscape(s), '\n', "<br>")
  }

  function UnescapeAt(t: string): (r: (char, nat))
    requires |t| > 0
    ensures 1 <= r.1 <= |t|
  {
    if StartsWith(t, "<br>") then ('\n', 4)
    else if StartsWith(t, "&amp;") then ('&', 5)
    else if StartsWith(t, "&lt;") then ('<', 4)
    else if StartsWith(t, "&gt;") then ('>', 4)
    else if StartsWith(t, "&quot;") then ('"', 6)
    else if StartsWith(t, "&#x27;") then ('\'', 6)
    else (t[0], 1)
  }

  /** The decoding that undoes `sanitize_html`: entities and `<br>` back to characters. */
  function Unsanitize(t: string): string
    decreases |t|
  {
    if |t| == 0 then ""
    else var (c, n) := UnescapeAt(t); [c] + Unsanitize(t[n..])
  }

  lemma SanitizeConcat(a: string, b: string)
    ensures SanitizeHtml(a + b) == SanitizeHtml(a) + SanitizeHtml(b)
  {
    ReplaceAllConcat(a, b, '&', "&amp;");
    ReplaceAllConcat(EscapeAmp(a), EscapeAmp(b), '<', "&lt;");
    ReplaceAllConcat(EscapeLt(a), EscapeLt(b), '>', "&gt;");
    ReplaceAllConcat(EscapeGt(a), EscapeGt(b), '"', "&quot;");
    ReplaceAllConcat(EscapeQuot(a), EscapeQuot(b), '\'', "&#x27;");
    ReplaceAllConcat(HtmlEscape(a), HtmlEscape(b), '\n', "<br>");
  }

  lemma ReplaceAllSingle(c: char, x: char, r: string)
    ensures ReplaceAll([c], x, r) == if c == x then r else [c]
  {
    assert [c][1..] == "";
  }

  lemma EscapeLtOfChar(c: char)
    ensures EscapeLt([c]) == if c == '&' then "&amp;" else if c == '<' then "&lt;" else [c]
  {
    ReplaceAllSingle(c, '&', "&amp;");
    if c == '&' { ReplaceAllAbsent("&amp;", '<', "&lt;"); } else { ReplaceAllSingle(c, '<', "&lt;"); }
  }

  lemma EscapeGtOfChar(c: char)
    ensures EscapeGt([c]) == if c in "&<>" then SanitizeChar(c) else [c]
  {
    EscapeLtOfChar(c);
    if c == '&' { ReplaceAllAbsent("&amp;", '>', "&gt;"); }
    else if c == '<' { ReplaceAllAbsent("&lt;", '>', "&gt;"); }
    else { ReplaceAllSingle(c, '>', "&gt;"); }
  }

  lemma EscapeQuotOfChar(c: char)
    ensures EscapeQuot([c]) == if c in "&<>\"" then SanitizeChar(c) else [c]
  {
    EscapeGtOfChar(c);
    if c == '&' { ReplaceAllAbsent("&amp;", '"', "&quot;"); }
    else if c == '<' { ReplaceAllAbsent("&lt;", '"', "&quot;"); }
    else if c == '>' { ReplaceAllAbsent("&gt;", '"', "&quot;"); }
    else { ReplaceAllSingle(c, '"', "&quot;"); }
  }

  lemma HtmlEscapeOfChar(c: char)
    ensures HtmlEscape([c]) == if c in "&<>\"'" then SanitizeChar(c) else [c]
  {
    EscapeQuotOfChar(c);
    if c == '&' { ReplaceAllAbsent("&amp;", '\'', "&#x27;"); }
    else if c == '<' { ReplaceAllAbsent("&lt;", '\'', "&#x27;"); }
    else if c == '>' { ReplaceAllAbsent("&gt;", '\'', "&#x27;"); }
    else if c == '"' { ReplaceAllAbsent("&quot;", '\'', "&#x27;"); }
    else { ReplaceAllSingle(c, '\'', "&#x27;"); }
  }

  lemma SanitizeOfChar(c: char)
    ensures SanitizeHtml([c]) == SanitizeChar(c)
  {
    HtmlEscapeOfChar(c);
    if c == '&' { ReplaceAllAbsent("&amp;", '\n', "<br>"); }
    else if c == '<' { ReplaceAllAbsent("&lt;", '\n', "<br>"); }
    else if c == '>' { ReplaceAllAbsent("&gt;", '\n', "<br>"); }
    else if c == '"' { ReplaceAllAbsent("&quot;", '\n', "<br>"); }
    else if c == '\'' { ReplaceAllAbsent("&#x27;", '\n', "<br>"); }
    else { ReplaceAllSingle(c, '\n', "<br>"); }
  }

  /** The chain of replacements is the same as rewriting each character on its own. */
  lemma {:induction false} SanitizeIsPerCharacter(s: string)
    ensures SanitizeHtml(s) == FlatMap(SanitizeChar, s)
    decreases |s|
  {
    if |s| == 0 {
      assert SanitizeHtml(s) == "";
    } else {
      assert s == [s[0]] + s[1..];
      SanitizeConcat([s[0]], s[1..]);
      SanitizeOfChar(s[0]);
      SanitizeIsPerCharacter(s[1..]);
    }
  }

  /** Every `<` in t begins the tag `<br>`. */
  predicate OnlyBreakTags(t: string) {
    forall k :: 0 <= k < |t| && t[k] == '<' ==> k + 4 <= |t| && t[k..k + 4] == "<br>"
  }

  lemma {:induction false} FlatMapSanitizeShape(s: string)
    ensures OnlyBreakTags(FlatMap(SanitizeChar, s))
    ensures '"' !in FlatMap(SanitizeChar, s) && '\'' !in FlatMap(SanitizeChar, s)
    decreases |s|
  {
    if |s| > 0 {
      FlatMapSanitizeShape(s[1..]);
      SanitizeCharShape(s[0]);
      BreakTagsConcat(SanitizeChar(s[0]), FlatMap(SanitizeChar, s[1..]));
    }
  }

  /** One character's rewrite holds no quote, and holds a `<` only when it is `<br>`. */
  lemma SanitizeCharShape(c: char)
    ensures '"' !in SanitizeChar(c) && '\'' !in SanitizeChar(c)
    ensures '<' in SanitizeChar(c) ==> SanitizeChar(c) == "<br>"
  {
  }

  /** A piece without `<`, or the tag `<br>` itself, before text of that shape keeps the shape. */
  lemma BreakTagsConcat(head: string, tail: string)
    requires '<' in head ==> head == "<br>"
    requires OnlyBreakTags(tail)
    ensures OnlyBreakTags(head + tail)
  {
    var t := head + tail;
    forall k | 0 <= k < |t| && t[k] == '<'
      ensures k + 4 <= |t| && t[k..k + 4] == "<br>"
    {
      if k < |head| {
        assert head[k] == '<';
        assert t[..4] == head;
      } else {
        var j := k - |head|;
        assert tail[j] == '<';
        assert j + 4 <= |tail| && tail[j..j + 4] == "<br>";
        assert t[k..k + 4] == tail[j..j + 4];
      }
    }
  }

  /**
   * The result of `sanitize_html` carries no markup but line breaks: its only `<` open a
   * `<br>`, and it holds no quote characters.
   */
  lemma SanitizeOutputShape(s: string)
    ensures OnlyBreakTags(SanitizeHtml(s))
    ensures '"' !in SanitizeHtml(s) && '\'' !in SanitizeHtml(s)
  {
    SanitizeIsPerCharacter(s);
    FlatMapSanitizeShape(s);
  }

  lemma DiffersAt(u: string, p: string, k: nat)
    requires k < |p| && k < |u| && u[k] != p[k]
    ensures !StartsWith(u, p)
  {
    assert |p| <= |u| ==> u[..|p|][k] == u[k];
  }

  /** The decoder reads the encoding of c back as c, and consumes exactly that encoding. */
  lemma UnescapeAtSanitized(c: char, t: string)
    ensures UnescapeAt(SanitizeChar(c) + t) == (c, |SanitizeChar(c)|)
  {
    var e := SanitizeChar(c);
    var u := e + t;
    StartsWithConcat(e, t);
    match c
    case '\n' =>
    case '&' => DiffersAt(u, "<br>", 0);
    case '<' => DiffersAt(u, "<br>", 0); DiffersAt(u, "&amp;", 1);
    case '>' => DiffersAt(u, "<br>", 0); DiffersAt(u, "&amp;", 1); DiffersAt(u, "&lt;", 1);
    case '"' =>
      DiffersAt(u, "<br>", 0); DiffersAt(u, "&amp;", 1); DiffersAt(u, "&lt;", 1); DiffersAt(u, "&gt;", 1);
    case '\'' =>
      DiffersAt(u, "<br>", 0); DiffersAt(u, "&amp;", 1); DiffersAt(u, "&lt;", 1); DiffersAt(u, "&gt;", 1);
      DiffersAt(u, "&quot;", 1);
    case _ =>
      assert e == [c];
      DiffersAt(u, "<br>", 0); DiffersAt(u, "&amp;", 0); DiffersAt(u, "&lt;", 0); DiffersAt(u, "&gt;", 0);
      DiffersAt(u, "&quot;", 0); DiffersAt(u, "&#x27;", 0);
  }

  lemma UnsanitizeCons(c: char, t: string)
    ensures Unsanitize(SanitizeChar(c) + t) == [c] + Unsanitize(t)
  {
    var u := SanitizeChar(c) + t;
    UnescapeAtSanitized(c, t);
    StartsWithConcat(SanitizeChar(c), t);
  }

  /** Nothing is lost: decoding the sanitized text gives back the original. */
  lemma {:induction false} SanitizeRoundTrip(s: string)
    ensures Unsanitize(SanitizeHtml(s)) == s
  {
    SanitizeIsPerCharacter(s);
    UnsanitizeFlatMap(s);
  }

  lemma {:induction false} UnsanitizeFlatMap(s: string)
    ensures Unsanitize(FlatMap(SanitizeChar, s)) == s
    decreases |s|
  {
    if |s| > 0 {
      UnsanitizeCons(s[0], FlatMap(SanitizeChar, s[1..]));
      UnsanitizeFlatMap(s[1..]);
      assert s == [s[0]] + s[1..];
    }
  }

  // ---------------------------------------------------------------- allowed_file

  /** `'.' in filename and filename.rsplit('.', 1)[1].lower() in allowed` */
  function AllowedFile(filename: string, allowed: set<string>): bool {
    var dot := LastIndexOf(filename, '.');
    dot >= 0 && Lower(filename[dot + 1..]) in allowed
  }

  /** Position i holds the last `.` of f. */
  predicate LastDotAt(f: string, i: int) {
    0 <= i < |f| && f[i] == '.' && forall k :: i < k < |f| ==> f[k] != '.'
  }

  /** The name has a dot and the lower-cased text after its last dot is an allowed extension. */
  lemma AllowedFileMeaning(filename: string, allowed: set<string>)
    ensures AllowedFile(filename, allowed) <==>
              exists i :: LastDotAt(filename, i) && Lower(filename[i + 1..]) in allowed
  {
    if i :| LastDotAt(filename, i) && Lower(filename[i + 1..]) in allowed {
      LastDotIsLastIndex(filename, i);
    }
    if AllowedFile(filename, allowed) {
      assert LastDotAt(filename, LastIndexOf(filename, '.'));
    }
  }

  /** The last dot is where `rfind('.')` points. */
  lemma LastDotIsLastIndex(f: string, i: int)
    requires LastDotAt(f, i)
    ensures LastIndexOf(f, '.') == i
  {
    var r := LastIndexOf(f, '.');
    assert f[i] == '.';
    assert r >= 0 && !(r < i) && !(i < r);
  }

  /** A string cut at its last `.`: the part before, the dot, and what follows, dot-free. */
  lemma CutAtLastDot(f: string, i: int)
    requires LastDotAt(f, i)
    ensures f == f[..i] + "." + f[i + 1..] && '.' !in f[i + 1..]
  {
    DotFreeAfter(f, i);
  }

  lemma DotFreeAfter(f: string, i: int)
    requires 0 <= i < |f| && forall k :: i < k < |f| ==> f[k] != '.'
    ensures '.' !in f[i + 1..]
  {
    var rest := f[i + 1..];
    assert forall k :: 0 <= k < |rest| ==> rest[k] == f[i + 1 + k];
  }

  /** A name `base.ext` with a dot-free ext is allowed exactly when ext, lower-cased, is allowed. */
  lemma AllowedFileOfExtension(base: string, ext: string, allowed: set<string>)
    requires '.' !in ext
    ensures AllowedFile(base + "." + ext, allowed) <==> Lower(ext) in allowed
  {
    var f := base + "." + ext;
    AllowedFileMeaning(f, allowed);
    assert f[|base|] == '.' && f[|base| + 1..] == ext;
  }

  // ---------------------------------------------------------------- format_time_ago

  /** The buckets of `format_time_ago`; DateFormatted stands for the strftime branch. */
  datatype Ago = JustNow | Minutes(n: nat) | Hours(n: nat) | Days(n: nat) | DateFormatted

  /** The bucket for an age of `seconds` (negative ages included), counts by floor division. */
  function FormatTimeAgo(seconds: int): (a: Ago)
    ensures a.JustNow? <==> seconds < 60
    ensures a.Minutes? <==> 60 <= seconds < 3600
    ensures a.Hours? <==> 3600 <= seconds < 86400
    ensures a.Days? <==> 86400 <= seconds < 604800
    ensures a.DateFormatted? <==> seconds >= 604800
    ensures a.Minutes? ==> 1 <= a.n <= 59 && a.n * 60 <= seconds < (a.n + 1) * 60
    ensures a.Hours? ==> 1 <= a.n <= 23 && a.n * 3600 <= seconds < (a.n + 1) * 3600
    ensures a.Days? ==> 1 <= a.n <= 6 && a.n * 86400 <= seconds < (a.n + 1) * 86400
  {
    if seconds < 60 then JustNow
    else if seconds < 3600 then Minutes(seconds / 60)
    else if seconds < 86400 then Hours(seconds / 3600)
    else if seconds < 604800 then Days(seconds / 86400)
    else DateFormatted
  }

  function UnitWord(a: Ago): string
    requires a.Minutes? || a.Hours? || a.Days?
  {
    match a
    case Minutes(_) => "minute"
    case Hours(_) => "hour"
    case Days(_) => "day"
  }

  /** The wording: `{n} minute{'s' if n != 1 else ''} ago` and its hour and day forms. */
  function Phrase(a: Ago): string
    requires !a.DateFormatted?
  {
    if a.JustNow? then "just now"
    else NatToString(a.n) + " " + UnitWord(a) + (if a.n != 1 then "s" else "") + " ago"
  }

  /** The noun is plural exactly when the count is not 1. */
  lemma PhrasePluralIffNotOne(a: Ago)
    requires a.Minutes? || a.Hours? || a.Days?
    ensures var p := Phrase(a);
            |p| >= 5 && (p[|p| - 5..] == "s ago" <==> a.n != 1)
  {
    var p := Phrase(a);
    var w := UnitWord(a);
    if a.n == 1 {
      assert p[|p| - 5] == w[|w| - 1];
    } else {
      assert p[|p| - 5..] == "s ago";
    }
  }
}
