/** The pieces of JSON text that are not values: strings with their escapes, and joined lists. */
module JsonText {
  import opened Options

  function HexDigit(n: nat): char
    requires n < 16
  {
    "0123456789abcdef"[n]
  }

  function HexValue(c: char): Option<nat> {
    if '0' <= c <= '9' then Some((c - '0') as nat)
    else if 'a' <= c <= 'f' then Some(10 + (c - 'a') as nat)
    else if 'A' <= c <= 'F' then Some(10 + (c - 'A') as nat)
    else None
  }

  /** How JSON.stringify writes a character inside a string. */
  function EscapeChar(c: char): string {
    if c == '"' then "\\\"" else if c == '\\' then "\\\\"
    else if c == '\U{8}' then "\\b" else if c == '\U{c}' then "\\f"
    else if c == '\n' then "\\n" else if c == '\r' then "\\r" else if c == '\t' then "\\t"
    else if c < ' ' then "\\u00" + [HexDigit(c as nat / 16), HexDigit(c as nat % 16)]
    else [c]
  }

  function Escape(s: string): string {
    if s == "" then "" else EscapeChar(s[0]) + Escape(s[1..])
  }

  function Quote(s: string): string {
    "\"" + Escape(s) + "\""
  }

  /** Reads one character inside a string, escaped or not; control characters must be escaped. */
  function ReadChar(s: string): (r: Option<(char, string)>)
    ensures r.Some? ==> |r.value.1| < |s|
  {
    if s == "" || s[0] == '"' || s[0] < ' ' then None
    else if s[0] != '\\' then Some((s[0], s[1..]))
    else if |s| < 2 then None
    else match s[1]
      case '"' => Some(('"', s[2..]))
      case '\\' => Some(('\\', s[2..]))
      case '/' => Some(('/', s[2..]))
      case 'b' => Some(('\U{8}', s[2..]))
      case 'f' => Some(('\U{c}', s[2..]))
      case 'n' => Some(('\n', s[2..]))
      case 'r' => Some(('\r', s[2..]))
      case 't' => Some(('\t', s[2..]))
      case 'u' => ReadHex(s)
      case _ => None
  }

  /** Reads a four-digit escape; those for surrogates are not characters of their own. */
  function ReadHex(s: string): (r: Option<(char, string)>)
    ensures r.Some? ==> |r.value.1| < |s|
  {
    if |s| < 6 then None
    else
      var a, b, c, d := HexValue(s[2]), HexValue(s[3]), HexValue(s[4]), HexValue(s[5]);
      if a.None? || b.None? || c.None? || d.None? then None
      else
        var code := a.value * 4096 + b.value * 256 + c.value * 16 + d.value;
        if code < 0xD800 then Some((code as char, s[6..])) else None
  }

  /** Reads up to the closing quote. */
  function ReadString(s: string): (r: Option<(string, string)>)
    ensures r.Some? ==> |r.value.1| < |s|
    decreases |s|
  {
    if s == "" then None
    else if s[0] == '"' then Some(("", s[1..]))
    else
      var first := ReadChar(s);
      if first.None? then None
      else
        var rest := ReadString(first.value.1);
        if rest.None? then None else Some(([first.value.0] + rest.value.0, rest.value.1))
  }

  lemma HexRoundTrip(n: nat)
    requires n < 16
    ensures HexValue(HexDigit(n)) == Some(n)
  {
  }

  lemma HexEscapeRoundTrip(c: char, rest: string)
    requires c < ' '
    ensures ReadHex("\\u00" + [HexDigit(c as nat / 16), HexDigit(c as nat % 16)] + rest) == Some((c, rest))
  {
    var text := "\\u00" + [HexDigit(c as nat / 16), HexDigit(c as nat % 16)] + rest;
    HexRoundTrip(c as nat / 16);
    HexRoundTrip(c as nat % 16);
    assert text[2] == text[3] == '0' && HexValue('0') == Some(0);
    assert text[4] == HexDigit(c as nat / 16) && text[5] == HexDigit(c as nat % 16);
    assert text[6..] == rest;
  }

  predicate Short(c: char) {
    c == '"' || c == '\\' || c == '\U{8}' || c == '\U{c}' || c == '\n' || c == '\r' || c == '\t'
  }

  lemma CharRoundTrip(c: char, rest: string)
    ensures var text := EscapeChar(c) + rest;
      text[0] != '"' && ReadChar(text) == Some((c, rest))
  {
    var text := EscapeChar(c) + rest;
    if Short(c) {
      assert |EscapeChar(c)| == 2 && text[2..] == rest;
    } else if c < ' ' {
      HexEscapeRoundTrip(c, rest);
      assert text[1] == 'u';
    } else {
      assert text[1..] == rest;
    }
  }

  lemma ReadOneMore(c: char, later: string, s: string, rest: string)
    requires ReadString(later) == Some((s, rest))
    ensures ReadString(EscapeChar(c) + later) == Some(([c] + s, rest))
  {
    CharRoundTrip(c, later);
  }

  /** A quoted string is read back, whatever follows. */
  lemma {:induction false} StringRoundTrip(s: string, rest: string)
    ensures ReadString(Escape(s) + "\"" + rest) == Some((s, rest))
  {
    var text := Escape(s) + "\"" + rest;
    if s == "" {
      assert text[1..] == rest;
    } else {
      var later := Escape(s[1..]) + "\"" + rest;
      StringRoundTrip(s[1..], rest);
      assert text == EscapeChar(s[0]) + later;
      ReadOneMore(s[0], later, s[1..], rest);
      assert s == [s[0]] + s[1..];
    }
  }

  function Join(parts: seq<string>): string {
    if parts == [] then ""
    else if |parts| == 1 then parts[0]
    else parts[0] + "," + Join(parts[1..])
  }

  // ---------------------------------------------------------------- sorting by key

  predicate Before(a: string, b: string) {
    if b == "" then false
    else if a == "" then true
    else if a[0] != b[0] then a[0] < b[0]
    else Before(a[1..], b[1..])
  }

  lemma {:induction false} BeforeIsTotal(a: string, b: string)
    ensures a != b ==> (Before(a, b) <==> !Before(b, a))
    ensures a == b ==> !Before(a, b)
  {
    if a != "" && b != "" {
      BeforeIsTotal(a[1..], b[1..]);
      assert a == [a[0]] + a[1..] && b == [b[0]] + b[1..];
    }
  }

  lemma {:induction false} BeforeIsTransitive(a: string, b: string, c: string)
    requires Before(a, b) && Before(b, c)
    ensures Before(a, c)
  {
    if a != "" && a[0] == b[0] == c[0] {
      BeforeIsTransitive(a[1..], b[1..], c[1..]);
    }
  }

  function Insert<T>(e: (string, T), sorted: seq<(string, T)>): (r: seq<(string, T)>)
    ensures |r| == |sorted| + 1
  {
    if sorted == [] || Before(e.0, sorted[0].0) then [e] + sorted else [sorted[0]] + Insert(e, sorted[1..])
  }

  function Sort<T>(entries: seq<(string, T)>): (r: seq<(string, T)>)
    ensures |r| == |entries|
  {
    if entries == [] then [] else Insert(entries[0], Sort(entries[1..]))
  }

  lemma {:induction false} InsertMember<T>(e: (string, T), sorted: seq<(string, T)>, x: (string, T))
    ensures x in Insert(e, sorted) <==> x == e || x in sorted
  {
    if !(sorted == [] || Before(e.0, sorted[0].0)) {
      InsertMember(e, sorted[1..], x);
      assert sorted == [sorted[0]] + sorted[1..];
    }
  }

  lemma {:induction false} SortMember<T>(entries: seq<(string, T)>, x: (string, T))
    ensures x in Sort(entries) <==> x in entries
  {
    if entries != [] {
      SortMember(entries[1..], x);
      InsertMember(entries[0], Sort(entries[1..]), x);
      assert entries == [entries[0]] + entries[1..];
    }
  }

  function Map<T, U>(f: T -> U, entries: seq<(string, T)>): (r: seq<(string, U)>)
    ensures |r| == |entries| && forall i :: 0 <= i < |entries| ==> r[i] == (entries[i].0, f(entries[i].1))
  {
    if entries == [] then [] else [(entries[0].0, f(entries[0].1))] + Map(f, entries[1..])
  }

  lemma {:induction false} MapInsert<T(!new), U(!new)>(f: T -> U, e: (string, T), sorted: seq<(string, T)>)
    ensures Map(f, Insert(e, sorted)) == Insert((e.0, f(e.1)), Map(f, sorted))
  {
    if sorted == [] || Before(e.0, sorted[0].0) {
      assert ([e] + sorted)[1..] == sorted;
    } else {
      MapInsert(f, e, sorted[1..]);
      var more := [sorted[0]] + Insert(e, sorted[1..]);
      assert more[1..] == Insert(e, sorted[1..]);
      assert Map(f, sorted)[1..] == Map(f, sorted[1..]);
    }
  }

  /** Values do not matter to the order. */
  lemma {:induction false} MapSort<T(!new), U(!new)>(f: T -> U, entries: seq<(string, T)>)
    ensures Map(f, Sort(entries)) == Sort(Map(f, entries))
  {
    if entries != [] {
      MapSort(f, entries[1..]);
      MapInsert(f, entries[0], Sort(entries[1..]));
      assert Map(f, entries)[1..] == Map(f, entries[1..]);
    }
  }

  predicate Ascending<T>(entries: seq<(string, T)>) {
    |entries| > 1 ==> Before(entries[0].0, entries[1].0) && Ascending(entries[1..])
  }

  predicate DistinctKeys<T>(entries: seq<(string, T)>) {
    entries == [] ||
    ((forall i :: 1 <= i < |entries| ==> entries[i].0 != entries[0].0) && DistinctKeys(entries[1..]))
  }

  lemma KeysCons<T>(e: (string, T), later: seq<(string, T)>)
    ensures DistinctKeys([e] + later) <==> DistinctKeys(later) && forall i :: 0 <= i < |later| ==> later[i].0 != e.0
  {
    var all := [e] + later;
    assert all[1..] == later;
    if DistinctKeys(all) {
      forall i | 0 <= i < |later|
        ensures later[i].0 != e.0
      {
        assert all[i + 1].0 != all[0].0;
      }
    }
  }

  lemma ThreeKeys<T>(a: (string, T), b: (string, T), c: (string, T))
    requires a.0 != b.0 && a.0 != c.0 && b.0 != c.0
    ensures DistinctKeys([a, b, c])
  {
    assert [a, b, c] == [a] + [b, c] && [b, c] == [b] + [c] && [c] == [c] + [];
    KeysCons(c, []);
    KeysCons(b, [c]);
    KeysCons(a, [b, c]);
  }

  lemma {:induction false} InsertAscends<T(!new)>(e: (string, T), sorted: seq<(string, T)>)
    requires Ascending(sorted) && forall x :: x in sorted ==> x.0 != e.0
    ensures Ascending(Insert(e, sorted))
  {
    if sorted == [] || Before(e.0, sorted[0].0) {
      assert ([e] + sorted)[1..] == sorted;
    } else {
      assert sorted[0] in sorted;
      BeforeIsTotal(e.0, sorted[0].0);
      InsertAscends(e, sorted[1..]);
      var later := Insert(e, sorted[1..]);
      assert ([sorted[0]] + later)[1..] == later;
    }
  }

  lemma {:induction false} SortAscends<T(!new)>(entries: seq<(string, T)>)
    requires DistinctKeys(entries)
    ensures Ascending(Sort(entries))
  {
    if entries != [] {
      SortAscends(entries[1..]);
      forall x | x in Sort(entries[1..])
        ensures x.0 != entries[0].0
      {
        SortMember(entries[1..], x);
        var i :| 0 <= i < |entries[1..]| && entries[1..][i] == x;
        assert entries[i + 1] == x;
      }
      InsertAscends(entries[0], Sort(entries[1..]));
    }
  }

  /** Sorting leaves what is in order as it is. */
  lemma {:induction false} SortOfAscending<T(!new)>(entries: seq<(string, T)>)
    requires Ascending(entries)
    ensures Sort(entries) == entries
  {
    if entries != [] {
      SortOfAscending(entries[1..]);
      assert entries == [entries[0]] + entries[1..];
    }
  }

  lemma {:induction false} HeadIsFirst<T(!new)>(entries: seq<(string, T)>, x: (string, T))
    requires Ascending(entries) && entries != [] && x in entries[1..]
    ensures Before(entries[0].0, x.0)
  {
    var later := entries[1..];
    if x != later[0] {
      assert later == [later[0]] + later[1..];
      HeadIsFirst(later, x);
      BeforeIsTransitive(entries[0].0, later[0].0, x.0);
    }
  }

  lemma {:induction false} AscendingKeysAreDistinct<T(!new)>(entries: seq<(string, T)>)
    requires Ascending(entries)
    ensures DistinctKeys(entries)
  {
    if entries != [] {
      AscendingKeysAreDistinct(entries[1..]);
      forall i | 1 <= i < |entries|
        ensures entries[i].0 != entries[0].0
      {
        assert entries[1..][i - 1] == entries[i];
        HeadIsFirst(entries, entries[i]);
        BeforeIsTotal(entries[0].0, entries[i].0);
      }
    }
  }

  lemma {:induction false} AscendingIsUnique<T(!new)>(a: seq<(string, T)>, b: seq<(string, T)>)
    requires Ascending(a) && Ascending(b) && forall x :: x in a <==> x in b
    ensures a == b
  {
    assert a != [] ==> a[0] in a;
    assert b != [] ==> b[0] in b;
    if a != [] && b != [] {
      HeadsAgree(a, b);
      assert a == [a[0]] + a[1..] && b == [b[0]] + b[1..];
      forall x
        ensures x in a[1..] <==> x in b[1..]
      {
        NotTwice(a, x);
        NotTwice(b, x);
      }
      AscendingIsUnique(a[1..], b[1..]);
    }
  }

  lemma NotTwice<T(!new)>(a: seq<(string, T)>, x: (string, T))
    requires Ascending(a) && a != []
    ensures x in a[1..] <==> x in a && x != a[0]
  {
    assert a == [a[0]] + a[1..];
    if x in a[1..] {
      HeadIsFirst(a, x);
      BeforeIsTotal(a[0].0, x.0);
    }
  }

  lemma HeadsAgree<T(!new)>(a: seq<(string, T)>, b: seq<(string, T)>)
    requires Ascending(a) && Ascending(b) && a != [] && b != [] && forall x :: x in a <==> x in b
    ensures a[0] == b[0]
  {
    assert a[0] in b && b[0] in a;
    assert a == [a[0]] + a[1..] && b == [b[0]] + b[1..];
    if a[0] != b[0] {
      HeadIsFirst(a, b[0]);
      HeadIsFirst(b, a[0]);
      BeforeIsTotal(a[0].0, b[0].0);
    }
  }

  lemma {:induction false} MapKeepsKeys<T(!new), U(!new)>(f: T -> U, entries: seq<(string, T)>)
    requires DistinctKeys(entries)
    ensures DistinctKeys(Map(f, entries))
  {
    if entries != [] {
      MapKeepsKeys(f, entries[1..]);
      assert Map(f, entries)[1..] == Map(f, entries[1..]);
    }
  }
}
