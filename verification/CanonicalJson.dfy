// Values with a canonical text, and what reading that text gives back:
// the printing rules of src/ann/config-lifecycle.ts and src/recommendation/embedding-lifecycle.ts.
module CanonicalJson {
  import opened Options
  import opened JsonText

  /**
   * What a metadata value can be. A number stands for its printed form; NonFinite is NaN or an infinity.
   * An object lists its properties in order of creation.
   */
  datatype Value =
    | Undefined
    | Null
    | Bool(truth: bool)
    | NonFinite
    | Number(token: string)
    | Text(text: string)
    | Array(items: seq<Value>)
    | Object(fields: seq<(string, Value)>)

  predicate NumberChar(c: char) {
    '0' <= c <= '9' || c in "+-.eE"
  }

  predicate IsToken(s: string) {
    s != "" && forall i :: 0 <= i < |s| ==> NumberChar(s[i])
  }

  /** Numbers print as tokens, and no property is listed twice. */
  predicate WellFormed(v: Value) {
    match v
    case Number(token) => IsToken(token)
    case Array(items) => forall i :: 0 <= i < |items| ==> WellFormed(items[i])
    case Object(fields) => DistinctKeys(fields) && forall i :: 0 <= i < |fields| ==> WellFormed(fields[i].1)
    case _ => true
  }

  function Entry(e: (string, string)): string {
    Quote(e.0) + ":" + e.1
  }

  function Entries(entries: seq<(string, string)>): (r: seq<string>)
    ensures |r| == |entries| && forall i :: 0 <= i < |entries| ==> r[i] == Entry(entries[i])
  {
    seq(|entries|, i requires 0 <= i < |entries| => Entry(entries[i]))
  }

  /**
   * stableStringifyForAnnConfig: keys are sorted, nothing is dropped. JSON.stringify has no text for undefined,
   * which shows as the word in a field and as nothing between the commas of an array, and null for what is not finite.
   */
  function AnnText(v: Value): string {
    match v
    case Undefined => "undefined"
    case Null => "null"
    case Bool(b) => if b then "true" else "false"
    case NonFinite => "null"
    case Number(token) => token
    case Text(text) => Quote(text)
    case Array(items) =>
      "[" + Join(seq(|items|, i requires 0 <= i < |items| => if items[i].Undefined? then "" else AnnText(items[i]))) + "]"
    case Object(fields) =>
      "{" + Join(Entries(Sort(seq(|fields|, i requires 0 <= i < |fields| => (fields[i].0, AnnText(fields[i].1)))))) + "}"
  }

  // ---------------------------------------------------------------- reading

  function TokenLength(s: string): (n: nat)
    ensures n <= |s|
  {
    if s == "" || !NumberChar(s[0]) then 0 else 1 + TokenLength(s[1..])
  }

  function Keyword(s: string, word: string, v: Value): (r: Option<(Value, string)>)
    requires word != ""
    ensures r.Some? ==> |r.value.1| < |s|
  {
    if word <= s then Some((v, s[|word|..])) else None
  }

  /** JSON.parse on texts without white space: one value and the text after it. */
  function Parse(s: string): (r: Option<(Value, string)>)
    ensures r.Some? ==> |r.value.1| < |s|
    decreases |s|, 0
  {
    if s == "" then None
    else if s[0] == 'n' then Keyword(s, "null", Null)
    else if s[0] == 't' then Keyword(s, "true", Bool(true))
    else if s[0] == 'f' then Keyword(s, "false", Bool(false))
    else if s[0] == '"' then
      var text := ReadString(s[1..]);
      if text.None? then None else Some((Text(text.value.0), text.value.1))
    else if s[0] == '[' then
      if |s| > 1 && s[1] == ']' then Some((Array([]), s[2..]))
      else
        var items := ParseItems(s[1..]);
        if items.None? then None else Some((Array(items.value.0), items.value.1))
    else if s[0] == '{' then
      if |s| > 1 && s[1] == '}' then Some((Object([]), s[2..]))
      else
        var fields := ParseFields(s[1..]);
        if fields.None? then None else Some((Object(fields.value.0), fields.value.1))
    else
      var n := TokenLength(s);
      if n == 0 then None else Some((Number(s[..n]), s[n..]))
  }

  function ParseItems(s: string): (r: Option<(seq<Value>, string)>)
    ensures r.Some? ==> |r.value.1| < |s|
    decreases |s|, 1
  {
    var first := Parse(s);
    if first.None? || first.value.1 == "" then None
    else
      var (v, rest) := first.value;
      if rest[0] == ']' then Some(([v], rest[1..]))
      else if rest[0] != ',' then None
      else
        var more := ParseItems(rest[1..]);
        if more.None? then None else Some(([v] + more.value.0, more.value.1))
  }

  function ParseFields(s: string): (r: Option<(seq<(string, Value)>, string)>)
    ensures r.Some? ==> |r.value.1| < |s|
    decreases |s|, 1
  {
    if s == "" || s[0] != '"' then None
    else
      var key := ReadString(s[1..]);
      if key.None? || key.value.1 == "" || key.value.1[0] != ':' then None
      else
        var first := Parse(key.value.1[1..]);
        if first.None? || first.value.1 == "" then None
        else
          var (v, rest) := first.value;
          var field := (key.value.0, v);
          if rest[0] == '}' then Some(([field], rest[1..]))
          else if rest[0] != ',' then None
          else
            var more := ParseFields(rest[1..]);
            if more.None? then None else Some(([field] + more.value.0, more.value.1))
  }

  /** The whole text is one value. */
  function ParseAll(s: string): Option<Value> {
    var r := Parse(s);
    if r.Some? && r.value.1 == "" then Some(r.value.0) else None
  }

  // ---------------------------------------------------------------- what printed text reads as

  /** What reading the printed text of v gives, if it can be read at all. */
  ghost function ReadsAs(v: Value): Option<Value> {
    match v
    case Undefined => None
    case NonFinite => Some(Null)
    case Array(items) =>
      if items == [Undefined] then Some(Array([]))
      else if exists i :: 0 <= i < |items| && ReadsAs(items[i]).None? then None
      else Some(Array(seq(|items|, i requires 0 <= i < |items| => ReadsAs(items[i]).value)))
    case Object(fields) =>
      if exists i :: 0 <= i < |fields| && ReadsAs(fields[i].1).None? then None
      else Some(Object(Sort(seq(|fields|, i requires 0 <= i < |fields| => (fields[i].0, ReadsAs(fields[i].1).value)))))
    case _ => Some(v)
  }

  /** Text after a value that cannot be taken for part of it. */
  predicate Ends(rest: string) {
    rest == "" || !NumberChar(rest[0])
  }

  lemma {:induction false} TokenEnds(token: string, rest: string)
    requires (forall i :: 0 <= i < |token| ==> NumberChar(token[i])) && Ends(rest)
    ensures TokenLength(token + rest) == |token|
  {
    if token == "" {
      assert token + rest == rest;
    } else {
      assert (token + rest)[1..] == token[1..] + rest;
      TokenEnds(token[1..], rest);
    }
  }

  lemma NumberParses(token: string, rest: string)
    requires IsToken(token) && Ends(rest)
    ensures Parse(token + rest) == Some((Number(token), rest))
  {
    TokenEnds(token, rest);
    assert (token + rest)[..|token|] == token && (token + rest)[|token|..] == rest;
  }

  lemma TextParses(text: string, rest: string)
    ensures Parse(Quote(text) + rest) == Some((Text(text), rest))
  {
    StringRoundTrip(text, rest);
    assert (Quote(text) + rest)[1..] == Escape(text) + "\"" + rest;
  }

  lemma WordParses(word: string, v: Value, rest: string)
    requires (word == "null" && v == Null) || (word == "true" && v == Bool(true)) || (word == "false" && v == Bool(false))
    ensures Parse(word + rest) == Some((v, rest))
  {
    assert (word + rest)[|word|..] == rest;
  }

  lemma UndefinedDoesNotParse(rest: string)
    ensures Parse("undefined" + rest) == None
  {
    assert ("undefined" + rest)[0] == 'u';
  }

  ghost function Outcome<T>(read: Option<T>, rest: string): Option<(T, string)> {
    if read.None? then None else Some((read.value, rest))
  }

  // Arrays.

  function Part(v: Value): string {
    if v.Undefined? then "" else AnnText(v)
  }

  function Parts(items: seq<Value>): (r: seq<string>)
    ensures |r| == |items| && forall i :: 0 <= i < |items| ==> r[i] == Part(items[i])
  {
    if items == [] then [] else [Part(items[0])] + Parts(items[1..])
  }

  lemma ArrayText(items: seq<Value>)
    ensures AnnText(Array(items)) == "[" + Join(Parts(items)) + "]"
  {
    assert Parts(items) == seq(|items|, i requires 0 <= i < |items| => if items[i].Undefined? then "" else AnnText(items[i]));
  }

  ghost function ReadItems(items: seq<Value>): (r: Option<seq<Value>>)
    ensures r.Some? <==> forall i :: 0 <= i < |items| ==> ReadsAs(items[i]).Some?
    ensures r.Some? ==> |r.value| == |items| && forall i :: 0 <= i < |items| ==> r.value[i] == ReadsAs(items[i]).value
  {
    if items == [] then Some([])
    else
      var first, more := ReadsAs(items[0]), ReadItems(items[1..]);
      if first.None? || more.None? then None else Some([first.value] + more.value)
  }

  lemma ReadsAsArray(items: seq<Value>)
    requires items != [Undefined]
    ensures ReadsAs(Array(items)) == if ReadItems(items).None? then None else Some(Array(ReadItems(items).value))
  {
    var r := ReadItems(items);
    if r.Some? {
      assert r.value == seq(|items|, i requires 0 <= i < |items| => ReadsAs(items[i]).value);
    }
  }

  /** How an item and what follows it are parsed. */
  lemma ItemThen(item: Value, sep: char, later: string)
    requires sep == ',' || sep == ']'
    requires !item.Undefined? ==> Parse(AnnText(item) + ([sep] + later)) == Outcome(ReadsAs(item), [sep] + later)
    ensures ParseItems(Part(item) + ([sep] + later)) ==
      if ReadsAs(item).None? then None
      else if sep == ']' then Some(([ReadsAs(item).value], later))
      else
        var more := ParseItems(later);
        if more.None? then None else Some(([ReadsAs(item).value] + more.value.0, more.value.1))
  {
    var after := [sep] + later;
    if item.Undefined? {
      assert Part(item) + after == after && after[0] == sep;
      assert Parse(after) == None;
    } else {
      assert after[1..] == later;
    }
  }

  lemma JoinNext(parts: seq<string>, tail: string)
    requires parts != []
    ensures Join(parts) + tail == parts[0] + (if |parts| == 1 then tail else "," + (Join(parts[1..]) + tail))
  {
  }

  lemma {:induction false} ItemsParse(v: Value, items: seq<Value>, rest: string)
    requires v.Array? && WellFormed(v) && items != [] && |items| <= |v.items| && items == v.items[|v.items| - |items|..]
    ensures ParseItems(Join(Parts(items)) + ("]" + rest)) == Outcome(ReadItems(items), rest)
    decreases v, 0, |items|
  {
    var item := items[0];
    assert item == v.items[|v.items| - |items|];
    JoinNext(Parts(items), "]" + rest);
    if |items| == 1 {
      if !item.Undefined? {
        ParsesAs(item, "]" + rest);
      }
      ItemThen(item, ']', rest);
      assert items[1..] == [] && ReadItems(items[1..]) == Some([]);
      if ReadsAs(item).Some? {
        assert [ReadsAs(item).value] + [] == [ReadsAs(item).value];
      }
    } else {
      ItemsParse(v, items[1..], rest);
      assert Parts(items)[1..] == Parts(items[1..]);
      var later := Join(Parts(items[1..])) + ("]" + rest);
      if !item.Undefined? {
        ParsesAs(item, "," + later);
      }
      ItemThen(item, ',', later);
    }
  }

  lemma TextStarts(v: Value)
    requires WellFormed(v)
    ensures AnnText(v) != "" && AnnText(v)[0] != ']'
  {
  }

  lemma PartsStart(items: seq<Value>, tail: string)
    requires items != [] && items != [Undefined] && WellFormed(items[0])
    ensures Join(Parts(items)) != "" && Join(Parts(items))[0] != ']'
  {
    TextStarts(items[0]);
    JoinNext(Parts(items), "");
    assert items[0].Undefined? && |items| == 1 ==> items == [Undefined];
  }

  lemma BracketsParse(rest: string)
    ensures Parse("[" + ("" + ("]" + rest))) == Some((Array([]), rest))
  {
    var text := "[" + ("" + ("]" + rest));
    assert text[1] == ']' && text[2..] == rest;
  }

  lemma ArrayOpens(inside: string)
    requires inside != "" && inside[0] != ']'
    ensures Parse("[" + inside) ==
      (var items := ParseItems(inside); if items.None? then None else Some((Array(items.value.0), items.value.1)))
  {
    assert ("[" + inside)[1..] == inside;
  }

  lemma ArrayParses(v: Value, rest: string)
    requires v.Array? && WellFormed(v)
    ensures Parse(AnnText(v) + rest) == Outcome(ReadsAs(v), rest)
    decreases v, 1, 0
  {
    var items := v.items;
    ArrayText(items);
    var inner := Join(Parts(items));
    assert AnnText(v) + rest == "[" + (inner + ("]" + rest));
    if items == [] || items == [Undefined] {
      assert Parts(items) == [] || Parts(items) == [""];
      BracketsParse(rest);
      if items == [] {
        assert ReadsAs(v).value.items == [];
      }
    } else {
      PartsStart(items, rest);
      ReadsAsArray(items);
      assert v.items[0..] == items;
      ItemsParse(v, items, rest);
      ArrayOpens(inner + ("]" + rest));
    }
  }

  // Objects.

  lemma ObjectText(fields: seq<(string, Value)>)
    ensures AnnText(Object(fields)) == "{" + Join(Entries(Map(AnnText, Sort(fields)))) + "}"
  {
    assert Map(AnnText, fields) == seq(|fields|, i requires 0 <= i < |fields| => (fields[i].0, AnnText(fields[i].1)));
    MapSort(AnnText, fields);
  }

  ghost function ReadsOr(v: Value): Value {
    if ReadsAs(v).Some? then ReadsAs(v).value else Null
  }

  ghost function ReadFields(fields: seq<(string, Value)>): Option<seq<(string, Value)>> {
    if exists i :: 0 <= i < |fields| && ReadsAs(fields[i].1).None? then None else Some(Map(ReadsOr, fields))
  }

  lemma ReadsAsObject(fields: seq<(string, Value)>)
    ensures ReadsAs(Object(fields)) == if ReadFields(Sort(fields)).None? then None else Some(Object(ReadFields(Sort(fields)).value))
  {
    var sorted := Sort(fields);
    if i :| 0 <= i < |fields| && ReadsAs(fields[i].1).None? {
      SortMember(fields, fields[i]);
    } else {
      forall i | 0 <= i < |sorted|
        ensures ReadsAs(sorted[i].1).Some?
      {
        SortMember(fields, sorted[i]);
      }
      assert Map(ReadsOr, fields) ==
        seq(|fields|, i requires 0 <= i < |fields| => (fields[i].0, ReadsAs(fields[i].1).value));
      MapSort(ReadsOr, fields);
    }
  }

  lemma ReadFieldsNext(fields: seq<(string, Value)>)
    requires fields != []
    ensures ReadFields(fields) ==
      (if ReadsAs(fields[0].1).None? || ReadFields(fields[1..]).None? then None
       else Some([(fields[0].0, ReadsAs(fields[0].1).value)] + ReadFields(fields[1..]).value))
  {
    assert fields == [fields[0]] + fields[1..];
    if i :| 0 <= i < |fields[1..]| && ReadsAs(fields[1..][i].1).None? {
      assert ReadsAs(fields[i + 1].1).None?;
    }
  }

  lemma EntryShape(key: string, text: string, tail: string)
    ensures Entry((key, text)) + tail == "\"" + (Escape(key) + "\"" + (":" + (text + tail)))
  {
  }

  /** A key, a colon and what can be parsed behind it. */
  lemma KeyThen(key: string, behind: string)
    ensures var s := "\"" + (Escape(key) + "\"" + (":" + behind));
      ReadString(s[1..]) == Some((key, ":" + behind)) && (":" + behind)[1..] == behind
  {
    StringRoundTrip(key, ":" + behind);
    assert ("\"" + (Escape(key) + "\"" + (":" + behind)))[1..] == Escape(key) + "\"" + (":" + behind);
  }

  /** How a field and what follows it are parsed. */
  lemma FieldThen(key: string, value: Value, sep: char, later: string)
    requires sep == ',' || sep == '}'
    requires Parse(AnnText(value) + ([sep] + later)) == Outcome(ReadsAs(value), [sep] + later)
    ensures ParseFields(Entry((key, AnnText(value))) + ([sep] + later)) ==
      if ReadsAs(value).None? then None
      else if sep == '}' then Some(([(key, ReadsAs(value).value)], later))
      else
        var more := ParseFields(later);
        if more.None? then None else Some(([(key, ReadsAs(value).value)] + more.value.0, more.value.1))
  {
    var tail := [sep] + later;
    EntryShape(key, AnnText(value), tail);
    KeyThen(key, AnnText(value) + tail);
    assert tail[1..] == later;
  }

  lemma {:induction false} FieldsParse(v: Value, fields: seq<(string, Value)>, rest: string)
    requires v.Object? && WellFormed(v) && fields != [] && forall f :: f in fields ==> f in v.fields
    ensures ParseFields(Join(Entries(Map(AnnText, fields))) + ("}" + rest)) == Outcome(ReadFields(fields), rest)
    decreases v, 0, |fields|
  {
    var (key, value) := fields[0];
    assert fields[0] in v.fields;
    var i :| 0 <= i < |v.fields| && v.fields[i] == fields[0];
    assert value == v.fields[i].1 && WellFormed(value);
    FieldParts(fields, "}" + rest);
    ReadFieldsNext(fields);
    if |fields| == 1 {
      ParsesAs(value, "}" + rest);
      FieldThen(key, value, '}', rest);
      if ReadsAs(value).Some? {
        LastField(fields);
      }
    } else {
      FieldsParse(v, fields[1..], rest);
      var later := Join(Entries(Map(AnnText, fields[1..]))) + ("}" + rest);
      ParsesAs(value, "," + later);
      FieldThen(key, value, ',', later);
    }
  }

  lemma EntriesNext(fields: seq<(string, Value)>)
    requires fields != []
    ensures var parts := Entries(Map(AnnText, fields));
      parts[0] == Entry((fields[0].0, AnnText(fields[0].1))) && parts[1..] == Entries(Map(AnnText, fields[1..]))
  {
    var parts, later := Entries(Map(AnnText, fields)), Entries(Map(AnnText, fields[1..]));
    assert |parts[1..]| == |later|;
    forall i | 0 <= i < |later|
      ensures parts[1..][i] == later[i]
    {
      assert fields[1..][i] == fields[i + 1];
    }
  }

  lemma FieldParts(fields: seq<(string, Value)>, tail: string)
    requires fields != []
    ensures Join(Entries(Map(AnnText, fields))) + tail ==
      Entry((fields[0].0, AnnText(fields[0].1))) +
      (if |fields| == 1 then tail else "," + (Join(Entries(Map(AnnText, fields[1..]))) + tail))
  {
    EntriesNext(fields);
    JoinNext(Entries(Map(AnnText, fields)), tail);
  }

  lemma LastField(fields: seq<(string, Value)>)
    requires |fields| == 1 && ReadsAs(fields[0].1).Some?
    ensures ReadFields(fields) == Some([(fields[0].0, ReadsAs(fields[0].1).value)])
  {
    assert fields[1..] == [];
    assert Map(ReadsOr, fields) == [(fields[0].0, ReadsAs(fields[0].1).value)];
  }

  lemma ObjectParses(v: Value, rest: string)
    requires v.Object? && WellFormed(v)
    ensures Parse(AnnText(v) + rest) == Outcome(ReadsAs(v), rest)
    decreases v, 1, 0
  {
    var sorted := Sort(v.fields);
    ObjectText(v.fields);
    ReadsAsObject(v.fields);
    var inner := Join(Entries(Map(AnnText, sorted)));
    assert AnnText(v) + rest == "{" + (inner + ("}" + rest));
    if v.fields == [] {
      BracesParse(rest);
      assert ReadFields(sorted) == Some([]);
    } else {
      JoinNext(Entries(Map(AnnText, sorted)), "");
      forall f | f in sorted
        ensures f in v.fields
      {
        SortMember(v.fields, f);
      }
      FieldsParse(v, sorted, rest);
      ObjectOpens(inner + ("}" + rest));
    }
  }

  lemma BracesParse(rest: string)
    ensures Parse("{" + ("" + ("}" + rest))) == Some((Object([]), rest))
  {
    var text := "{" + ("" + ("}" + rest));
    assert text[1] == '}' && text[2..] == rest;
  }

  lemma ObjectOpens(inside: string)
    requires inside != "" && inside[0] == '"'
    ensures Parse("{" + inside) ==
      (var fields := ParseFields(inside); if fields.None? then None else Some((Object(fields.value.0), fields.value.1)))
  {
    assert ("{" + inside)[1..] == inside;
  }

  /** Reading printed text gives exactly what ReadsAs says, and the text after it. */
  lemma {:induction false} ParsesAs(v: Value, rest: string)
    requires WellFormed(v) && Ends(rest)
    ensures Parse(AnnText(v) + rest) == Outcome(ReadsAs(v), rest)
    decreases v, 2, 0
  {
    match v
    case Undefined => UndefinedDoesNotParse(rest);
    case Null => WordParses("null", Null, rest);
    case Bool(b) => WordParses(if b then "true" else "false", v, rest);
    case NonFinite => WordParses("null", Null, rest);
    case Number(token) => NumberParses(token, rest);
    case Text(text) => TextParses(text, rest);
    case Array(_) => ArrayParses(v, rest);
    case Object(_) => ObjectParses(v, rest);
  }
}
