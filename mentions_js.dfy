/**
 * The browser side of `@username` autocomplete: when the dropdown opens and with what
 * search term, the arrow-key movement of the highlighted entry, the text splice that
 * inserts a chosen name, the client-side filter of the user list and the one-minute
 * cache of that list. Times are milliseconds; the server's reply is an input.
 */
module MentionsJs {
  import opened Wrappers
  import opened Strings

  /** JavaScript's `\w` without the `u` flag: ASCII letters, digits and `_`. */
  predicate JsWordChar(c: char) {
    ('a' <= c <= 'z') || ('A' <= c <= 'Z') || ('0' <= c <= '9') || c == '_'
  }

  predicate AllWord(s: string) {
    forall k :: 0 <= k < |s| ==> JsWordChar(s[k])
  }

  /** `s.substring(a, b)`: both ends clamped to the string, and swapped if out of order. */
  function JsSubstring(s: string, a: int, b: int): (r: string)
    ensures 0 <= a <= b <= |s| ==> r == s[a..b]
  {
    var i := if a < 0 then 0 else if a > |s| then |s| else a;
    var j := if b < 0 then 0 else if b > |s| then |s| else b;
    if i <= j then s[i..j] else s[j..i]
  }

  // ---------------------------------------------------------------- the trigger

  /** The `@` at i is followed only by word characters up to the end of t. */
  predicate TriggerAt(t: string, i: int) {
    0 <= i < |t| && t[i] == '@' && AllWord(t[i + 1..])
  }

  /**
   * `textBeforeCursor.match(/@(\w*)$/)`: the group after the `@` that is followed only by
   * word characters up to the end. Since `@` is no word character, only the last `@` can
   * be that one.
   */
  function MentionTrigger(t: string): (term: Option<string>)
    ensures term.Some? <==> exists i :: TriggerAt(t, i)
    ensures term.Some? ==> AllWord(term.value) && |term.value| < |t|
                           && t[|t| - |term.value| - 1..] == "@" + term.value
  {
    var at := LastIndexOf(t, '@');
    if at >= 0 && TriggerAt(t, at) then
      TriggerAtLastAt(t, at);
      Some(t[at + 1..])
    else
      TriggerNeedsLastAt(t, at);
      None
  }

  lemma TriggerAtLastAt(t: string, at: int)
    requires 0 <= at < |t| && t[at] == '@' && AllWord(t[at + 1..])
    ensures exists i :: TriggerAt(t, i)
    ensures |t[at + 1..]| < |t| && t[|t| - |t[at + 1..]| - 1..] == "@" + t[at + 1..]
  {
    assert TriggerAt(t, at);
    assert |t| - |t[at + 1..]| - 1 == at;
    assert t[at..] == [t[at]] + t[at + 1..];
  }

  /** An `@` followed only by word characters is the last `@`. */
  lemma TriggerNeedsLastAt(t: string, at: int)
    requires at == LastIndexOf(t, '@')
    requires !(at >= 0 && TriggerAt(t, at))
    ensures !exists i :: TriggerAt(t, i)
  {
    forall i | 0 <= i < |t| && t[i] == '@'
      ensures !TriggerAt(t, i)
    {
      if i < at {
        WordSuffixHasNoAt(t, i, at);
      }
    }
  }

  lemma WordSuffixHasNoAt(t: string, i: nat, at: nat)
    requires i < at < |t| && t[at] == '@'
    ensures !AllWord(t[i + 1..])
  {
    assert t[i + 1..][at - i - 1] == t[at];
  }

  /** `handleMentionInput`: the search term to show the dropdown for, or None to hide it. */
  function HandleMentionInput(text: string, cursor: int): Option<string> {
    MentionTrigger(JsSubstring(text, 0, cursor))
  }

  /** Just after `@` the dropdown opens with an empty term; a space closes it. */
  lemma TriggerExamples(before: string, name: string)
    requires AllWord(name)
    ensures MentionTrigger(before + "@" + name) == Some(name)
    ensures MentionTrigger(before + "@" + name + " ") == None
  {
    var t := before + "@" + name;
    assert t[|before|] == '@' && t[|before| + 1..] == name;
    var u := t + " ";
    assert u[|u| - 1] == ' ' && !JsWordChar(u[|u| - 1]);
    forall i | 0 <= i < |u| && u[i] == '@'
      ensures !AllWord(u[i + 1..])
    {
      assert u[i + 1..][|u| - i - 2] == ' ';
    }
    var term := MentionTrigger(t).value;
    assert t[|t| - |term| - 1..] == "@" + term;
    NoAtInWord(name);
    SuffixAfterLastAt(before, name, term);
  }

  lemma NoAtInWord(name: string)
    requires AllWord(name)
    ensures '@' !in name
  {
  }

  /** Two `@`-led word suffixes of the same text are one and the same. */
  lemma SuffixAfterLastAt(before: string, name: string, term: string)
    requires '@' !in name && AllWord(term) && |term| < |before| + 1 + |name|
    requires (before + "@" + name)[|before + "@" + name| - |term| - 1..] == "@" + term
    ensures term == name
  {
    var t := before + "@" + name;
    var p := |t| - |term| - 1;
    assert t[p] == '@';
    assert t[p + 1..] == term;
    NoAtAfter(t, p, term);
    NoAtInTail(before, name);
    assert t[|before|] == '@';
    assert p == |before|;
    assert t[|before| + 1..] == name;
  }

  lemma NoAtAfter(t: string, p: nat, term: string)
    requires p < |t| && t[p + 1..] == term && AllWord(term)
    ensures forall j :: p < j < |t| ==> t[j] != '@'
  {
    forall j | p < j < |t|
      ensures t[j] != '@'
    {
      assert t[j] == term[j - p - 1];
    }
  }

  lemma NoAtInTail(before: string, name: string)
    requires '@' !in name
    ensures forall j :: |before| < j < |before + "@" + name| ==> (before + "@" + name)[j] != '@'
  {
    var t := before + "@" + name;
    forall j | |before| < j < |t|
      ensures t[j] != '@'
    {
      assert t[j] == name[j - |before| - 1];
    }
  }

  // ---------------------------------------------------------------- arrow keys

  datatype Key = ArrowDown | ArrowUp | Enter | Tab | Escape | OtherKey

  datatype KeyEffect = Ignore | Highlight(index: int) | Choose(index: int) | Close

  /**
   * `handleMentionKeydown` with `n` entries of which `active` is highlighted (-1 when none):
   * the arrows move the highlight without leaving the list, Enter or Tab takes the
   * highlighted entry, Escape closes the dropdown.
   */
  function HandleMentionKeydown(visible: bool, key: Key, active: int, n: nat): (e: KeyEffect)
    requires -1 <= active < n
    ensures !visible ==> e == Ignore
    ensures visible && key == ArrowDown ==> e == Highlight(if active + 1 < n - 1 then active + 1 else n - 1)
    ensures visible && key == ArrowUp ==> e == Highlight(if active - 1 > 0 then active - 1 else 0)
    ensures e.Choose? <==> visible && (key == Enter || key == Tab) && active >= 0
    ensures e.Choose? ==> e.index == active
    ensures e == Close <==> visible && key == Escape
  {
    if !visible then Ignore
    else match key
      case ArrowDown => Highlight(Min(active + 1, n - 1))
      case ArrowUp => Highlight(Max(active - 1, 0))
      case Enter => if active >= 0 then Choose(active) else Ignore
      case Tab => if active >= 0 then Choose(active) else Ignore
      case Escape => Close
      case OtherKey => Ignore
  }

  function Min(a: int, b: int): int { if a < b then a else b }
  function Max(a: int, b: int): int { if a > b then a else b }

  /** With at least one entry the arrows always highlight an entry of the list. */
  lemma ArrowsStayInList(key: Key, active: int, n: nat)
    requires n >= 1 && -1 <= active < n && (key == ArrowDown || key == ArrowUp)
    ensures HandleMentionKeydown(true, key, active, n).Highlight?
    ensures 0 <= HandleMentionKeydown(true, key, active, n).index < n
  {
  }

  /** Down from the last entry stays there, up from the first stays there. */
  lemma ArrowsStopAtTheEnds(n: nat)
    requires n >= 1
    ensures HandleMentionKeydown(true, ArrowDown, n - 1, n) == Highlight(n - 1)
    ensures HandleMentionKeydown(true, ArrowUp, 0, n) == Highlight(0)
  {
  }

  // ---------------------------------------------------------------- inserting a name

  /**
   * `selectMention`: the text before the last `@` before the cursor, then `@`, the name and
   * a space, then the text from the cursor on; and the new cursor position.
   */
  function SelectMention(text: string, cursor: int, username: string): (string, int) {
    var before := JsSubstring(text, 0, cursor);
    var mentionStart := LastIndexOf(before, '@');
    (JsSubstring(text, 0, mentionStart) + "@" + username + " " + JsSubstring(text, cursor, |text|),
     mentionStart + |username| + 2)
  }

  /**
   * With an `@` before the cursor, the part being typed is replaced by `@name `, the text
   * around it is kept, and the cursor lands just after the inserted space.
   */
  lemma SelectMentionSplices(text: string, cursor: nat, username: string)
    requires cursor <= |text| && '@' in text[..cursor]
    ensures var at := LastIndexOf(text[..cursor], '@');
            var (t, c) := SelectMention(text, cursor, username);
            && 0 <= at < cursor && '@' !in text[at + 1..cursor]
            && t == text[..at] + "@" + username + " " + text[cursor..]
            && c == at + |username| + 2 && 0 <= c <= |t|
            && t[..c] == text[..at] + "@" + username + " "
            && t[c..] == text[cursor..]
  {
    var before := text[..cursor];
    var at := LastIndexOf(before, '@');
    assert JsSubstring(text, 0, cursor) == before;
    assert JsSubstring(text, 0, at) == text[..at];
    assert JsSubstring(text, cursor, |text|) == text[cursor..];
    var t := text[..at] + "@" + username + " " + text[cursor..];
    var c := at + |username| + 2;
    assert |text[..at] + "@" + username + " "| == c;
  }

  // ---------------------------------------------------------------- filtering the list

  /** Case-insensitive `includes` (lower-casing is taken as ASCII). */
  predicate NameMatches(username: string, term: string) {
    Contains(Lower(username), Lower(term))
  }

  /** Whether a is b with some elements left out, order kept. */
  predicate Subsequence(a: seq<string>, b: seq<string>)
    decreases |b|
  {
    if a == [] then true
    else if b == [] then false
    else if a[0] == b[0] then Subsequence(a[1..], b[1..])
    else Subsequence(a, b[1..])
  }

  /** `users.filter(user => user.username.toLowerCase().includes(term))` */
  function Matching(users: seq<string>, term: string): (r: seq<string>)
    ensures forall x :: x in r <==> x in users && NameMatches(x, term)
    ensures Subsequence(r, users)
    decreases |users|
  {
    if users == [] then []
    else if NameMatches(users[0], term) then [users[0]] + Matching(users[1..], term)
    else Matching(users[1..], term)
  }

  function Take(xs: seq<string>, n: nat): (r: seq<string>)
    ensures |r| <= n && |r| <= |xs| && r == xs[..|r|]
    ensures |xs| <= n ==> r == xs
  {
    if |xs| <= n then xs else xs[..n]
  }

  /** `filterUsers`: at most ten users, the first ten for an empty term. */
  function FilterUsers(users: seq<string>, term: string): (r: seq<string>)
    ensures |r| <= 10
    ensures term == "" ==> r == Take(users, 10)
    ensures term != "" ==> r == Take(Matching(users, term), 10)
  {
    if term == "" then Take(users, 10) else Take(Matching(users, term), 10)
  }

  lemma {:induction false} SubsequencePrefix(a: seq<string>, n: nat, b: seq<string>)
    requires Subsequence(a, b) && n <= |a|
    ensures Subsequence(a[..n], b)
    decreases |b|
  {
    if n == 0 || a == [] {
    } else if b == [] {
    } else if a[0] == b[0] {
      assert a[..n][1..] == a[1..][..n - 1];
      SubsequencePrefix(a[1..], n - 1, b[1..]);
    } else {
      SubsequencePrefix(a, n, b[1..]);
    }
  }

  lemma {:induction false} SubsequenceOfSelf(b: seq<string>)
    ensures Subsequence(b, b)
    decreases |b|
  {
    if b != [] {
      SubsequenceOfSelf(b[1..]);
    }
  }

  /**
   * For a non-empty term the result keeps the users' order, holds only matching users, and
   * holds every matching user unless it was cut at ten.
   */
  lemma FilterUsersMeaning(users: seq<string>, term: string)
    ensures Subsequence(FilterUsers(users, term), users)
    ensures term != "" ==> forall x :: x in FilterUsers(users, term) ==> NameMatches(x, term)
    ensures term != "" && |FilterUsers(users, term)| < 10 ==>
              forall x :: x in users && NameMatches(x, term) ==> x in FilterUsers(users, term)
  {
    var r := FilterUsers(users, term);
    if term == "" {
      SubsequenceOfSelf(users);
      SubsequencePrefix(users, |r|, users);
    } else {
      var m := Matching(users, term);
      SubsequencePrefix(m, |r|, users);
      if |r| < 10 {
        assert r == m;
      }
      forall x | x in r
        ensures NameMatches(x, term)
      {
        assert x in m;
      }
    }
  }

  // ---------------------------------------------------------------- the user cache

  const CacheDuration: int := 60000

  /** What the user search endpoint answers: `{success: true, users}`, anything else, or a failure. */
  datatype Reply = Success(users: seq<string>) | Unsuccessful | RequestFailed

  /** The cache is used when it holds users and was filled less than a minute ago. */
  predicate CacheFresh(cache: seq<string>, cacheTime: int, now: int) {
    |cache| > 0 && now - cacheTime < CacheDuration
  }

  /** Within a minute of a refresh with users, the cache is used. */
  lemma CacheFreshForAMinute(users: seq<string>, refreshed: int, now: int)
    requires |users| > 0 && refreshed <= now < refreshed + 60000
    ensures CacheFresh(users, refreshed, now)
    ensures !CacheFresh(users, refreshed, refreshed + 60000)
  {
  }

  /** The module's `mentionCache` and `mentionCacheTime`. */
  class MentionCache {
    var users: seq<string>
    var time: int

    constructor ()
      ensures users == [] && time == 0
    {
      users, time := [], 0;
    }

    /**
     * `fetchUsers`: from a fresh cache, filtered on the client; otherwise the server's
     * answer, which refills the cache only when it succeeds.
     */
    method FetchUsers(term: string, now: int, reply: Reply) returns (result: seq<string>)
      modifies this
      ensures CacheFresh(old(users), old(time), now) ==>
                result == FilterUsers(old(users), term) && users == old(users) && time == old(time)
      ensures !CacheFresh(old(users), old(time), now) && reply.Success? ==>
                result == reply.users && users == reply.users && time == now
      ensures !CacheFresh(old(users), old(time), now) && !reply.Success? ==>
                result == [] && users == old(users) && time == old(time)
    {
      if |users| > 0 && now - time < CacheDuration {
        return FilterUsers(users, term);
      }
      match reply
      case Success(us) =>
        users := us;
        time := now;
        result := us;
      case _ =>
        result := [];
    }
  }
}
