/** The opaque outbox cursors: src/recommendation/activitypub-public-outbox-source-adapter.ts. */
module OutboxCursor {
  import opened Options
  import Decimal

  const MAX_CURSOR_LENGTH := 1024
  const MAX_SAFE_INTEGER := 0x1F_FFFF_FFFF_FFFF
  const CURSOR_PREFIX := "activitypub-outbox:v2:"
  const LEGACY_CURSOR_PREFIX := "activitypub-outbox:v1:"

  /** A normalized https URL without fragment. A query may be present and yet empty. */
  datatype Url = Url(host: string, path: string, query: Option<string>)

  datatype Position = Position(page: Url, offset: nat)

  predicate Graphic(s: string) {
    forall i :: 0 <= i < |s| ==> '!' <= s[i] <= '~'
  }

  predicate UrlText(s: string) {
    Graphic(s) && '#' !in s && '\\' !in s
  }

  /** What the URL parser leaves of any accepted URL. */
  predicate Normal(u: Url) {
    && u.path != "" && u.path[0] == '/' && UrlText(u.path) && '?' !in u.path
    && (u.query.Some? ==> UrlText(u.query.value))
    && u.host != "" && '/' !in u.host && '?' !in u.host
  }

  /** URL.search is empty both without a query and with an empty one. */
  function Search(u: Url): string {
    if u.query.None? || u.query.value == "" then "" else "?" + u.query.value
  }

  function Relative(u: Url): string {
    u.path + Search(u)
  }

  function EncodeCursor(p: Position, origin: string): Option<string> {
    var cursor := CURSOR_PREFIX + Decimal.Print(p.offset) + ":" + Relative(p.page);
    if p.page.host != origin || |cursor| > MAX_CURSOR_LENGTH then None else Some(cursor)
  }

  /** The first place of c, or the length. */
  function IndexOf(s: string, c: char): (i: nat)
    ensures i <= |s| && (i < |s| ==> s[i] == c) && forall j :: 0 <= j < i ==> s[j] != c
  {
    if s == "" || s[0] == c then 0 else 1 + IndexOf(s[1..], c)
  }

  function DropSlashes(s: string): (r: string)
    ensures |r| <= |s|
  {
    if s != "" && s[0] == '/' then DropSlashes(s[1..]) else s
  }

  /** Where a path and query lead on a host; an absent path is the root. */
  function PathAndQuery(host: string, s: string): Url {
    var mark := IndexOf(s, '?');
    Url(host, if mark == 0 then "/" else s[..mark], if mark == |s| then None else Some(s[mark + 1..]))
  }

  /**
   * A reference resolved against an origin, by section 4.4 of the WHATWG URL standard, for references in normal form:
   * a path starts with one slash; two slashes or more start another host. Other references are left to `other`.
   */
  function Resolve(reference: string, origin: string, other: string -> Option<Url>): Option<Url> {
    if |reference| < 1 || reference[0] != '/' || !UrlText(reference) then other(reference)
    else if |reference| == 1 || reference[1] != '/' then Some(PathAndQuery(origin, reference))
    else
      var rest := DropSlashes(reference);
      var slash, mark := IndexOf(rest, '/'), IndexOf(rest, '?');
      var end := if slash < mark then slash else mark;
      if end == 0 then None else Some(PathAndQuery(rest[..end], rest[end..]))
  }

  predicate Control(c: char) {
    c <= '\U{1f}' || c == '\U{7f}' || '\U{80}' <= c <= '\U{9f}'
  }

  /** Non-empty, not too long, untrimmable and without control characters. */
  predicate Bounded(s: string) {
    && 0 < |s| <= MAX_CURSOR_LENGTH
    && s[0] != ' ' && s[|s| - 1] != ' '
    && forall i :: 0 <= i < |s| ==> !Control(s[i])
  }

  /** A page URL is taken only from the origin. */
  function OnOrigin(p: Option<Position>, origin: string): Option<Position> {
    if p.Some? && p.value.page.host != origin then None else p
  }

  /** Legacy cursors hold percent-encoded JSON; reading that is left to `legacy`, and odd references to `other`. */
  function DecodeCursor(cursor: string, origin: string, legacy: string -> Option<Position>, other: string -> Option<Url>):
    Option<Position>
  {
    if !Bounded(cursor) then None
    else if LEGACY_CURSOR_PREFIX <= cursor then OnOrigin(legacy(cursor), origin)
    else if !(CURSOR_PREFIX <= cursor) then None
    else
      var state := cursor[|CURSOR_PREFIX|..];
      var separator := IndexOf(state, ':');
      if separator < 1 || separator >= |state| - 1 then None
      else
        var offset := Decimal.Parse(state[..separator]);
        if offset.None? || offset.value > MAX_SAFE_INTEGER then None
        else
          var page := Resolve(state[separator + 1..], origin, other);
          if page.None? then None else OnOrigin(Some(Position(page.value, offset.value)), origin)
  }

  /** Whatever a cursor says, it names a page of the origin; and no other page, and no long text, is made a cursor. */
  lemma CursorsStayOnTheOrigin(p: Position, cursor: string, origin: string, legacy: string -> Option<Position>, other: string -> Option<Url>)
    ensures var read := DecodeCursor(cursor, origin, legacy, other); read.Some? ==> read.value.page.host == origin && 0 < |cursor| <= 1024
    ensures var made := EncodeCursor(p, origin);
      made.Some? <==> p.page.host == origin && |CURSOR_PREFIX + Decimal.Print(p.offset) + ":" + Relative(p.page)| <= 1024
  {
  }

  // ---------------------------------------------------------------- round trip

  lemma {:induction false} IndexAfter(s: string, t: string, c: char)
    requires c !in s && t != "" && t[0] == c
    ensures IndexOf(s + t, c) == |s|
  {
    if s != "" {
      assert (s + t)[1..] == s[1..] + t;
      IndexAfter(s[1..], t, c);
    } else {
      assert s + t == t;
    }
  }

  lemma IndexAbsent(s: string, c: char)
    requires c !in s
    ensures IndexOf(s, c) == |s|
  {
  }

  lemma PathAndQueryRoundTrip(u: Url)
    requires Normal(u)
    ensures PathAndQuery(u.host, Relative(u)) == u.(query := if u.query == Some("") then None else u.query)
  {
    if Search(u) == "" {
      assert Relative(u) == u.path;
      IndexAbsent(u.path, '?');
    } else {
      IndexAfter(u.path, Search(u), '?');
      assert Relative(u)[|u.path| + 1..] == u.query.value;
    }
    assert Relative(u)[..|u.path|] == u.path;
  }

  lemma DigitsAreGraphic(s: string)
    requires Decimal.AllDigits(s)
    ensures ':' !in s && Graphic(s)
  {
  }

  lemma RelativeIsText(u: Url)
    requires Normal(u)
    ensures UrlText(Relative(u)) && |Relative(u)| > 0 && Relative(u)[0] == '/'
  {
  }

  predicate HasParts(state: string, number: string, reference: string) {
    var separator := IndexOf(state, ':');
    && 1 <= separator < |state| - 1
    && state[..separator] == number
    && state[separator + 1..] == reference
  }

  lemma StateParts(number: string, reference: string)
    requires number != "" && ':' !in number && reference != ""
    ensures HasParts(number + ":" + reference, number, reference)
  {
    var rest := ":" + reference;
    assert number + ":" + reference == number + rest;
    IndexAfter(number, rest, ':');
  }

  lemma GraphicJoins(s: string, t: string)
    requires Graphic(s) && Graphic(t)
    ensures Graphic(s + t)
  {
  }

  lemma GraphicIsBounded(s: string)
    requires Graphic(s) && 0 < |s| <= MAX_CURSOR_LENGTH
    ensures Bounded(s)
  {
  }

  lemma PrefixesDiffer(s: string)
    requires CURSOR_PREFIX <= s
    ensures !(LEGACY_CURSOR_PREFIX <= s)
  {
    assert CURSOR_PREFIX[20] == '2' && LEGACY_CURSOR_PREFIX[20] == '1';
  }

  /** A cursor is accepted, and its parts are found again. */
  lemma CursorParts(p: Position, origin: string)
    requires Normal(p.page) && EncodeCursor(p, origin).Some?
    ensures var cursor := EncodeCursor(p, origin).value;
      && Bounded(cursor) && CURSOR_PREFIX <= cursor && !(LEGACY_CURSOR_PREFIX <= cursor)
      && HasParts(cursor[|CURSOR_PREFIX|..], Decimal.Print(p.offset), Relative(p.page))
  {
    var number := Decimal.Print(p.offset);
    var state := number + ":" + Relative(p.page);
    var cursor := EncodeCursor(p, origin).value;
    assert cursor == CURSOR_PREFIX + state;
    RelativeIsText(p.page);
    DigitsAreGraphic(number);
    StateParts(number, Relative(p.page));
    GraphicJoins(number, ":");
    GraphicJoins(number + ":", Relative(p.page));
    GraphicJoins(CURSOR_PREFIX, state);
    GraphicIsBounded(cursor);
    PrefixesDiffer(cursor);
    assert cursor[|CURSOR_PREFIX|..] == state;
  }

  lemma OtherHostOtherPath(reference: string, origin: string, other: string -> Option<Url>, path: string)
    requires UrlText(reference) && |reference| >= 2 && reference[0] == reference[1] == '/'
    requires path == reference[..IndexOf(reference, '?')]
    requires Resolve(reference, origin, other).Some?
    ensures Resolve(reference, origin, other).value.path != path
  {
    var rest := DropSlashes(reference);
    var u := Resolve(reference, origin, other).value;
    MarkMoves(reference);
  }

  lemma {:induction false} MarkMoves(s: string)
    ensures IndexOf(s, '?') - IndexOf(DropSlashes(s), '?') == |s| - |DropSlashes(s)|
  {
    if s != "" && s[0] == '/' {
      MarkMoves(s[1..]);
    }
  }

  /** Resolving a URL's own path and query gives the URL exactly when no host is read into them and no empty query is lost. */
  lemma ResolveRelative(u: Url, other: string -> Option<Url>)
    requires Normal(u)
    ensures Resolve(Relative(u), u.host, other) == Some(u) <==> !("//" <= u.path) && u.query != Some("")
  {
    RelativeIsText(u);
    PathAndQueryRoundTrip(u);
    var reference := Relative(u);
    assert |u.path| > 1 && u.path[1] == '/' ==> "//" <= u.path;
    if "//" <= u.path {
      assert reference[0] == reference[1] == '/';
      if Search(u) == "" {
        IndexAbsent(u.path, '?');
        assert reference == u.path;
      } else {
        IndexAfter(u.path, Search(u), '?');
      }
      assert u.path == reference[..IndexOf(reference, '?')];
      if Resolve(reference, u.host, other).Some? {
        OtherHostOtherPath(reference, u.host, other, u.path);
      }
    }
  }

  /** A cursor leads back to its position exactly when its path names no host and its query, if any, is not empty. */
  lemma CursorRoundTrip(p: Position, origin: string, legacy: string -> Option<Position>, other: string -> Option<Url>)
    requires Normal(p.page) && p.offset <= MAX_SAFE_INTEGER && EncodeCursor(p, origin).Some?
    ensures DecodeCursor(EncodeCursor(p, origin).value, origin, legacy, other) == Some(p)
      <==> !("//" <= p.page.path) && p.page.query != Some("")
  {
    CursorParts(p, origin);
    Decimal.ParsePrint(p.offset);
    ResolveRelative(p.page, other);
  }
}
