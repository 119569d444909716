/**
 * The browser's `getCsrfToken` helpers. Each page script carries its own copy, in two
 * shapes: one reads the hidden `csrf_token` form field and falls back to a `csrf_token=` or
 * `session=` cookie; the other reads the `csrf-token` meta tag and falls back to a
 * `csrf_token=` cookie only. The cookie string is `document.cookie`, rows joined by "; ".
 */
module CsrfJs {
  import opened Wrappers
  import opened Strings

  /** row starts with at least one of the prefixes. */
  predicate StartsWithAny(row: string, prefixes: seq<string>) {
    exists k :: 0 <= k < |prefixes| && StartsWith(row, prefixes[k])
  }

  /** Every prefix names a cookie, so it holds an `=`. */
  predicate PrefixesHaveEquals(prefixes: seq<string>) {
    forall k :: 0 <= k < |prefixes| ==> '=' in prefixes[k]
  }

  /** `rows.find(row => row.startsWith(p0) || ...)`, as the index of the row found, or -1. */
  function FindRow(rows: seq<string>, prefixes: seq<string>): (i: int)
    ensures -1 <= i < |rows|
    ensures i >= 0 ==> StartsWithAny(rows[i], prefixes)
    ensures i >= 0 ==> forall k :: 0 <= k < i ==> !StartsWithAny(rows[k], prefixes)
    ensures i == -1 <==> forall k :: 0 <= k < |rows| ==> !StartsWithAny(rows[k], prefixes)
    decreases |rows|
  {
    if |rows| == 0 then -1
    else if StartsWithAny(rows[0], prefixes) then 0
    else
      var i := FindRow(rows[1..], prefixes);
      assert forall k :: 1 <= k < |rows| ==> rows[k] == rows[1..][k - 1];
      if i < 0 then -1 else i + 1
  }

  lemma OccursAtOne(s: string, c: char, k: int)
    ensures OccursAt(s, [c], k) <==> 0 <= k < |s| && s[k] == c
  {
    if 0 <= k < |s| {
      assert |s[k..k + 1]| == 1 && s[k..k + 1][0] == s[k];
    }
  }

  /** s up to its first `=`: the first piece of `s.split('=')`. */
  lemma FirstPiece(s: string)
    ensures '=' !in Split(s, "=")[0]
    ensures StartsWith(s, Split(s, "=")[0])
    ensures var n := |Split(s, "=")[0]|; n == |s| || s[n] == '='
  {
    var r := FindFrom(s, "=", 0);
    var p := Split(s, "=")[0];
    forall k | 0 <= k < |p|
      ensures p[k] != '='
    {
      OccursAtOne(s, '=', k);
    }
    if r >= 0 {
      OccursAtOne(s, '=', r);
    }
  }

  /** A string holding `=` splits on it into at least two pieces. */
  lemma SplitsInTwo(s: string)
    requires '=' in s
    ensures |Split(s, "=")| >= 2
    ensures Split(s, "=")[1] == Split(s[FindFrom(s, "=", 0) + 1..], "=")[0]
  {
    var k :| 0 <= k < |s| && s[k] == '=';
    OccursAtOne(s, '=', k);
  }

  /**
   * `row.split('=')[1]`: for a row holding `=`, the text after its first `=` up to the next
   * `=` or the end.
   */
  function SecondPiece(row: string): (v: string)
    requires '=' in row
    ensures var i := IndexOf(row, '=');
            && 0 <= i && i + 1 + |v| <= |row| && row[i + 1..i + 1 + |v|] == v && '=' !in v
            && (i + 1 + |v| == |row| || row[i + 1 + |v|] == '=')
  {
    SplitsInTwo(row);
    var r := FindFrom(row, "=", 0);
    OccursAtOne(row, '=', r);
    forall k | 0 <= k < r
      ensures row[k] != '='
    {
      OccursAtOne(row, '=', k);
    }
    assert IndexOf(row, '=') == r;
    FirstPiece(row[r + 1..]);
    Split(row, "=")[1]
  }

  lemma PrefixCarriesEquals(row: string, prefixes: seq<string>)
    requires PrefixesHaveEquals(prefixes)
    requires StartsWithAny(row, prefixes)
    ensures '=' in row
  {
    var k :| 0 <= k < |prefixes| && StartsWith(row, prefixes[k]);
    var j :| 0 <= j < |prefixes[k]| && prefixes[k][j] == '=';
    assert row[..|prefixes[k]|][j] == row[j];
  }

  /**
   * The cookie fallback: split `document.cookie` on "; ", take the first row with one of the
   * prefixes, and answer the piece after its first `=`; '' when no row has one.
   */
  function CookieToken(cookie: string, prefixes: seq<string>): (t: string)
    requires PrefixesHaveEquals(prefixes)
  {
    var rows := Split(cookie, "; ");
    var i := FindRow(rows, prefixes);
    if i < 0 then ""
    else
      PrefixCarriesEquals(rows[i], prefixes);
      SecondPiece(rows[i])
  }

  const TokenOrSession: seq<string> := ["csrf_token=", "session="]
  const TokenOnly: seq<string> := ["csrf_token="]

  lemma PrefixesCarryEquals()
    ensures PrefixesHaveEquals(TokenOrSession) && PrefixesHaveEquals(TokenOnly)
  {
    assert TokenOrSession[0][10] == '=' && TokenOrSession[1][7] == '=';
  }

  /** A row `name=v`, with `name=` among the prefixes and v free of `=`, gives v. */
  lemma SecondPieceOfRow(name: string, v: string)
    requires '=' !in name && '=' !in v
    ensures '=' in name + "=" + v
    ensures SecondPiece(name + "=" + v) == v
  {
    var row := name + "=" + v;
    assert row[|name|] == '=';
    assert forall k :: 0 <= k < |name| ==> row[k] == name[k];
    assert IndexOf(row, '=') == |name|;
    assert row[|name| + 1..] == v;
  }

  /**
   * Reading the cookie back: for the rows of `document.cookie`, the token is the value of the
   * first row that starts with one of the prefixes.
   */
  lemma CookieTokenReadsFirstMatch(rows: seq<string>, prefixes: seq<string>, i: nat, name: string, v: string)
    requires PrefixesHaveEquals(prefixes)
    requires forall k :: 0 <= k < |rows| ==> Free(rows[k], "; ")
    requires i < |rows| && rows[i] == name + "=" + v && '=' !in name && '=' !in v
    requires StartsWithAny(rows[i], prefixes)
    requires forall k :: 0 <= k < i ==> !StartsWithAny(rows[k], prefixes)
    ensures CookieToken(Join(rows, "; "), prefixes) == v
  {
    SplitJoin(rows, "; ");
    RowsTokenReadsFirstMatch(Join(rows, "; "), rows, prefixes, i, name, v);
  }

  /** The same, for any cookie string whose rows are these. */
  lemma RowsTokenReadsFirstMatch(cookie: string, rows: seq<string>, prefixes: seq<string>, i: nat,
                                 name: string, v: string)
    requires PrefixesHaveEquals(prefixes) && Split(cookie, "; ") == rows
    requires i < |rows| && rows[i] == name + "=" + v && '=' !in name && '=' !in v
    requires StartsWithAny(rows[i], prefixes)
    requires forall k :: 0 <= k < i ==> !StartsWithAny(rows[k], prefixes)
    ensures CookieToken(cookie, prefixes) == v
  {
    FindRowIs(rows, prefixes, i);
    SecondPieceOfRow(name, v);
  }

  /** The row found is the first one that matches. */
  lemma FindRowIs(rows: seq<string>, prefixes: seq<string>, i: nat)
    requires i < |rows| && StartsWithAny(rows[i], prefixes)
    requires forall k :: 0 <= k < i ==> !StartsWithAny(rows[k], prefixes)
    ensures FindRow(rows, prefixes) == i
  {
    var r := FindRow(rows, prefixes);
    assert r != -1 && !(0 <= r < i) && !(i < r);
  }

  /** With no row carrying one of the prefixes the token is ''. */
  lemma CookieTokenEmptyWithoutMatch(rows: seq<string>, prefixes: seq<string>)
    requires PrefixesHaveEquals(prefixes)
    requires |rows| >= 1 && forall k :: 0 <= k < |rows| ==> Free(rows[k], "; ")
    requires forall k :: 0 <= k < |rows| ==> !StartsWithAny(rows[k], prefixes)
    ensures CookieToken(Join(rows, "; "), prefixes) == ""
  {
    SplitJoin(rows, "; ");
  }

  // ---------------------------------------------------------------- the two shapes

  /**
   * `getCsrfToken` of dark-mode.js and utils.js: the hidden field's value when the field
   * exists, else the first `csrf_token=` or `session=` cookie row.
   */
  function FieldOrCookieToken(field: Option<string>, cookie: string): (t: string)
    ensures field.Some? ==> t == field.value
  {
    PrefixesCarryEquals();
    match field
    case Some(v) => v
    case None => CookieToken(cookie, TokenOrSession)
  }

  /**
   * `getCsrfToken` of reactions.js and comments.js: the meta tag's content when the tag
   * exists, else the first `csrf_token=` cookie row.
   */
  function MetaOrCookieToken(meta: Option<string>, cookie: string): (t: string)
    ensures meta.Some? ==> t == meta.value
  {
    PrefixesCarryEquals();
    match meta
    case Some(v) => v
    case None => CookieToken(cookie, TokenOnly)
  }

  lemma CookieNamesHaveNoEquals()
    ensures '=' !in "csrf_token" && '=' !in "session"
  {
  }

  lemma StartsWithName(row: string, name: string, v: string, p: string)
    requires row == name + "=" + v
    requires p == name + "="
    ensures StartsWith(row, p)
  {
    assert row == p + v;
    StartsWithConcat(p, v);
  }

  /**
   * Without the field, the token is read from whichever of a `csrf_token=` row and a
   * `session=` row of the cookie comes first.
   */
  lemma FieldlessTokenFromCookie(cookie: string, i: nat, name: string, v: string)
    requires name == "csrf_token" || name == "session"
    requires i < |Split(cookie, "; ")| && Split(cookie, "; ")[i] == name + "=" + v && '=' !in v
    requires forall k :: 0 <= k < i ==> !StartsWithAny(Split(cookie, "; ")[k], TokenOrSession)
    ensures FieldOrCookieToken(None, cookie) == v
  {
    var rows := Split(cookie, "; ");
    PrefixesCarryEquals();
    NamedRowMatches(rows[i], name, v);
    RowsTokenReadsFirstMatch(cookie, rows, TokenOrSession, i, name, v);
  }

  lemma NamedRowMatches(row: string, name: string, v: string)
    requires name == "csrf_token" || name == "session"
    requires row == name + "=" + v
    ensures StartsWithAny(row, TokenOrSession) && '=' !in name
  {
    var k := if name == "csrf_token" then 0 else 1;
    StartsWithName(row, name, v, TokenOrSession[k]);
    CookieNamesHaveNoEquals();
  }

  /**
   * Without the meta tag, the token is the value of the first `csrf_token=` row of the
   * cookie; `session=` rows are not looked at, so a cookie of nothing but those gives ''.
   */
  lemma MetalessTokenFromCookie(cookie: string, i: nat, v: string)
    requires i < |Split(cookie, "; ")| && Split(cookie, "; ")[i] == "csrf_token=" + v && '=' !in v
    requires forall k :: 0 <= k < i ==> !StartsWith(Split(cookie, "; ")[k], "csrf_token=")
    ensures MetaOrCookieToken(None, cookie) == v
  {
    var rows := Split(cookie, "; ");
    PrefixesCarryEquals();
    TokenRowMatches(rows[i], v);
    NoTokenRowBefore(rows, i);
    RowsTokenReadsFirstMatch(cookie, rows, TokenOnly, i, "csrf_token", v);
  }

  lemma NoTokenRowBefore(rows: seq<string>, i: nat)
    requires i <= |rows|
    requires forall k :: 0 <= k < i ==> !StartsWith(rows[k], "csrf_token=")
    ensures forall k :: 0 <= k < i ==> !StartsWithAny(rows[k], TokenOnly)
  {
    forall k | 0 <= k < i
      ensures !StartsWithAny(rows[k], TokenOnly)
    {
      assert !StartsWith(rows[k], TokenOnly[0]);
    }
  }

  lemma TokenRowMatches(row: string, v: string)
    requires row == "csrf_token=" + v
    ensures StartsWithAny(row, TokenOnly) && '=' !in "csrf_token" && row == "csrf_token" + "=" + v
  {
    StartsWithName(row, "csrf_token", v, TokenOnly[0]);
    CookieNamesHaveNoEquals();
  }

  lemma MetalessTokenIgnoresSession(v: string)
    requires Free("session=" + v, "; ")
    ensures MetaOrCookieToken(None, "session=" + v) == ""
  {
    PrefixesCarryEquals();
    var row := "session=" + v;
    assert row[1] != "csrf_token="[1];
    assert !StartsWith(row, "csrf_token=");
    assert Join([row], "; ") == row;
    CookieTokenEmptyWithoutMatch([row], TokenOnly);
  }
}
