// The canonical serialization of an event, whose hash is the event's id.
module Serialization {
  import opened Wrappers
  import opened Events
  import opened Addresses
  import opened HexIO

  // ----- one string (section 7 of RFC 8259) -----

  // How one character is written between the quotation marks.
  function EscapeChar(c: char): (r: string)
    ensures r != []
  {
    if c == '"' then ['\\', '"']
    else if c == '\\' then ['\\', '\\']
    else if c >= ' ' then [c]
    else if c as int == 0x08 then ['\\', 'b']
    else if c as int < 0x09 then ['\\', 'u', '0', '0', '0', (0x30 + c as int) as char]
    else if c as int == 0x09 then ['\\', 't']
    else if c as int == 0x0a then ['\\', 'n']
    else if c as int == 0x0c then ['\\', 'f']
    else if c as int == 0x0d then ['\\', 'r']
    else if c as int < 0x10 then ['\\', 'u', '0', '0', '0', (0x57 + c as int) as char]
    else if c as int < 0x1a then ['\\', 'u', '0', '0', '1', (0x20 + c as int) as char]
    else ['\\', 'u', '0', '0', '1', (0x47 + c as int) as char]
  }

  function EscapeAll(s: string): string {
    if s == [] then "" else EscapeChar(s[0]) + EscapeAll(s[1..])
  }

  function Quoted(s: string): string {
    "\"" + EscapeAll(s) + "\""
  }

  // What a JSON reader makes of the text after a quotation mark: one character
  // and what follows it.
  function ReadChar(s: string): (r: Option<(char, string)>)
    ensures r.Some? ==> |r.value.1| < |s|
  {
    if s == [] || s[0] == '"' || s[0] < ' ' then None
    else if s[0] != '\\' then Some((s[0], s[1..]))
    else if |s| < 2 then None
    else if s[1] == '"' || s[1] == '\\' || s[1] == '/' then Some((s[1], s[2..]))
    else if s[1] == 'b' then Some((8 as char, s[2..]))
    else if s[1] == 't' then Some((9 as char, s[2..]))
    else if s[1] == 'n' then Some((10 as char, s[2..]))
    else if s[1] == 'f' then Some((12 as char, s[2..]))
    else if s[1] == 'r' then Some((13 as char, s[2..]))
    else if s[1] == 'u' && |s| >= 6 && s[2] == '0' && s[3] == '0' && HexValue(s[4]) >= 0 && HexValue(s[5]) >= 0 then
      Some(((HexValue(s[4]) * 16 + HexValue(s[5])) as char, s[6..]))
    else None
  }

  function ReadString(s: string): (r: Option<(string, string)>)
    ensures r.Some? ==> |r.value.1| < |s|
  {
    if s == [] then None
    else if s[0] == '"' then Some(("", s[1..]))
    else
      match ReadChar(s)
      case None => None
      case Some(first) =>
        match ReadString(first.1)
        case None => None
        case Some(rest) => Some(([first.0] + rest.0, rest.1))
  }

  lemma ReadsCharBack(c: char, rest: string)
    ensures ReadChar(EscapeChar(c) + rest) == Some((c, rest))
    ensures EscapeChar(c) != "" && EscapeChar(c)[0] != '"'
  {
    var e := EscapeChar(c);
    assert (e + rest)[|e|..] == rest;
  }

  // An escaped string ends itself and reads back, whatever follows.
  lemma {:induction false} ReadsStringBack(s: string, rest: string)
    ensures ReadString(EscapeAll(s) + "\"" + rest) == Some((s, rest))
  {
    hide EscapeChar, ReadChar;
    if s == [] {
      assert EscapeAll(s) + "\"" + rest == "\"" + rest;
    } else {
      var tail := EscapeAll(s[1..]) + "\"" + rest;
      ReadsStringBack(s[1..], rest);
      ReadsCharBack(s[0], tail);
      assert EscapeAll(s) + "\"" + rest == EscapeChar(s[0]) + tail;
      assert (EscapeChar(s[0]) + tail)[0] == EscapeChar(s[0])[0];
      assert [s[0]] + s[1..] == s;
    }
  }

  // Of all texts a JSON reader takes for the character this is the shortest,
  // and the only one as short with lower-case digits.
  lemma EscapeIsShortest(c: char, t: string)
    requires ReadChar(t) == Some((c, ""))
    ensures |EscapeChar(c)| <= |t|
    ensures |EscapeChar(c)| == |t| && (forall i :: 2 <= i < |t| ==> !('A' <= t[i] <= 'F')) ==> EscapeChar(c) == t
  {
    assert |t| == 1 ==> t == [t[0]];
    assert |t| == 2 ==> t == [t[0], t[1]];
    assert |t| == 6 ==> t == [t[0], t[1], t[2], t[3], t[4], t[5]];
  }

  lemma EscapeHasLowerCaseDigits(c: char)
    ensures forall i :: 2 <= i < |EscapeChar(c)| ==> !('A' <= EscapeChar(c)[i] <= 'F')
  {
  }

  lemma EscapeFits(c: char, t: string, rest: string)
    requires ReadChar(t) == Some((c, rest))
    ensures |EscapeChar(c)| + |rest| <= |t|
  {
  }

  // So no text that is read as the string is shorter than what is written.
  lemma QuotedIsShortest(s: string, t: string)
    requires ReadString(t) == Some((s, ""))
    ensures |Quoted(s)| <= |"\"" + t|
  {
    EscapedFits(s, t, "");
  }

  lemma {:induction false} EscapedFits(s: string, t: string, rest: string)
    requires ReadString(t) == Some((s, rest))
    ensures |EscapeAll(s)| + 1 + |rest| <= |t|
    decreases |t|
  {
    hide EscapeChar, ReadChar;
    if t[0] != '"' {
      var first := ReadChar(t).value;
      EscapeFits(first.0, t, first.1);
      EscapedFits(ReadString(first.1).value.0, first.1, rest);
      assert s[1..] == ReadString(first.1).value.0;
    }
  }

  // Each character is written by itself.
  lemma {:induction false} EscapesInTurn(s: string, t: string)
    ensures EscapeAll(s + t) == EscapeAll(s) + EscapeAll(t)
  {
    hide EscapeChar;
    if s == [] {
      assert s + t == t;
    } else {
      assert (s + t)[0] == s[0] && (s + t)[1..] == s[1..] + t;
      EscapesInTurn(s[1..], t);
    }
  }

  // No control character is left in the text.
  lemma {:induction false} EscapedIsPlain(s: string)
    ensures forall i :: 0 <= i < |EscapeAll(s)| ==> EscapeAll(s)[i] >= ' '
  {
    if s != [] {
      EscapedIsPlain(s[1..]);
    }
  }

  // ----- lists -----

  function Joined(parts: seq<string>): string {
    if parts == [] then "" else if |parts| == 1 then parts[0] else parts[0] + "," + Joined(parts[1..])
  }

  lemma {:induction false} JoinedGrows(parts: seq<string>, next: string)
    ensures Joined(parts + [next]) == if parts == [] then next else Joined(parts) + "," + next
  {
    if |parts| > 1 {
      JoinedGrows(parts[1..], next);
      assert (parts + [next])[1..] == parts[1..] + [next];
      assert parts[0] + "," + (Joined(parts[1..]) + "," + next) == (parts[0] + "," + Joined(parts[1..])) + "," + next;
    } else if |parts| == 1 {
      assert (parts + [next])[1..] == [next];
    }
  }

  function QuotedAll(tag: Tag): seq<string> {
    if tag == [] then [] else [Quoted(tag[0])] + QuotedAll(tag[1..])
  }

  function TagText(tag: Tag): string {
    "[" + Joined(QuotedAll(tag)) + "]"
  }

  function TagTexts(tags: seq<Tag>): seq<string> {
    if tags == [] then [] else [TagText(tags[0])] + TagTexts(tags[1..])
  }

  function Serialize(e: Event): string {
    "[0,\"" + e.pubkey + "\"," + Itoa(e.createdAt) + "," + Itoa(e.kind) + "," +
    "[" + Joined(TagTexts(e.tags)) + "]," + Quoted(e.content) + "]"
  }

  // The strings up to the closing bracket.
  function ReadStrings(s: string): (r: Option<(seq<string>, string)>)
    ensures r.Some? ==> |r.value.1| < |s|
    decreases |s|
  {
    if s == [] || s[0] != '"' then None
    else
      match ReadString(s[1..])
      case None => None
      case Some(first) =>
        if first.1 == [] then None
        else if first.1[0] == ']' then Some(([first.0], first.1[1..]))
        else if first.1[0] != ',' then None
        else
          match ReadStrings(first.1[1..])
          case None => None
          case Some(rest) => Some(([first.0] + rest.0, rest.1))
  }

  function ReadTag(s: string): (r: Option<(Tag, string)>)
    ensures r.Some? ==> |r.value.1| < |s|
  {
    if s == [] || s[0] != '[' then None
    else if |s| > 1 && s[1] == ']' then Some(([], s[2..]))
    else ReadStrings(s[1..])
  }

  function ReadTags(s: string): (r: Option<(seq<Tag>, string)>)
    ensures r.Some? ==> |r.value.1| < |s|
    decreases |s|
  {
    match ReadTag(s)
    case None => None
    case Some(first) =>
      if first.1 == [] then None
      else if first.1[0] == ']' then Some(([first.0], first.1[1..]))
      else if first.1[0] != ',' then None
      else
        match ReadTags(first.1[1..])
        case None => None
        case Some(rest) => Some(([first.0] + rest.0, rest.1))
  }

  lemma ReadsQuotedBack(s: string, rest: string)
    ensures (Quoted(s) + rest)[0] == '"' && ReadString((Quoted(s) + rest)[1..]) == Some((s, rest))
  {
    hide EscapeAll, ReadString;
    ReadsStringBack(s, rest);
    assert (Quoted(s) + rest)[1..] == EscapeAll(s) + "\"" + rest;
  }

  lemma {:induction false} ReadsStringsBack(tag: Tag, rest: string)
    requires tag != []
    ensures ReadStrings(Joined(QuotedAll(tag)) + "]" + rest) == Some((tag, rest))
  {
    hide Quoted, ReadString;
    var text := Joined(QuotedAll(tag)) + "]" + rest;
    if |tag| == 1 {
      assert QuotedAll(tag) == [Quoted(tag[0])];
      assert text == Quoted(tag[0]) + ("]" + rest);
      ReadsQuotedBack(tag[0], "]" + rest);
      assert ("]" + rest)[1..] == rest;
      assert tag == [tag[0]];
    } else {
      var more := Joined(QuotedAll(tag[1..])) + "]" + rest;
      ReadsStringsBack(tag[1..], rest);
      assert QuotedAll(tag)[1..] == QuotedAll(tag[1..]);
      assert text == Quoted(tag[0]) + "," + more;
      assert text == Quoted(tag[0]) + ("," + more);
      ReadsQuotedBack(tag[0], "," + more);
      assert ("," + more)[1..] == more;
      assert [tag[0]] + tag[1..] == tag;
    }
  }

  lemma ReadsTagBack(tag: Tag, rest: string)
    ensures ReadTag(TagText(tag) + rest) == Some((tag, rest))
  {
    var text := TagText(tag) + rest;
    if tag == [] {
      assert text[2..] == rest;
    } else {
      assert text[1..] == Joined(QuotedAll(tag)) + "]" + rest;
      assert QuotedAll(tag)[0][0] == '"';
      assert text[1] == '"';
      ReadsStringsBack(tag, rest);
    }
  }

  lemma {:induction false} ReadsTagsBack(tags: seq<Tag>, rest: string)
    requires tags != []
    ensures ReadTags(Joined(TagTexts(tags)) + "]" + rest) == Some((tags, rest))
  {
    hide TagText, ReadTag;
    var text := Joined(TagTexts(tags)) + "]" + rest;
    if |tags| == 1 {
      assert TagTexts(tags) == [TagText(tags[0])];
      assert text == TagText(tags[0]) + ("]" + rest);
      ReadsTagBack(tags[0], "]" + rest);
      assert ("]" + rest)[1..] == rest;
      assert tags == [tags[0]];
    } else {
      var more := Joined(TagTexts(tags[1..])) + "]" + rest;
      ReadsTagsBack(tags[1..], rest);
      assert TagTexts(tags)[1..] == TagTexts(tags[1..]);
      assert text == TagText(tags[0]) + ("," + more);
      ReadsTagBack(tags[0], "," + more);
      assert ("," + more)[1..] == more;
      assert [tags[0]] + tags[1..] == tags;
    }
  }

  // ----- the whole event -----

  // What the id of an event covers.
  datatype Fields = Fields(pubkey: string, createdAt: int, kind: int, tags: seq<Tag>, content: string)

  function FieldsOf(e: Event): Fields {
    Fields(e.pubkey, e.createdAt, e.kind, e.tags, e.content)
  }

  function ReadNumber(s: string): Option<(int, string)> {
    match Cut(s, ',')
    case None => None
    case Some(parts) =>
      match Atoi(parts.0)
      case None => None
      case Some(n) => Some((n, parts.1))
  }

  function ReadTagList(s: string): Option<(seq<Tag>, string)> {
    if s == [] || s[0] != '[' then None
    else if |s| > 1 && s[1] == ']' then Some(([], s[2..]))
    else ReadTags(s[1..])
  }

  function ReadContent(s: string): Option<string> {
    if |s| < 2 || s[0] != ',' || s[1] != '"' then None
    else
      match ReadString(s[2..])
      case None => None
      case Some(r) => if r.1 == "]" then Some(r.0) else None
  }

  function ReadEvent(s: string): Option<Fields> {
    if |s| < 4 || s[..4] != "[0,\"" then None
    else
      match Cut(s[4..], '"')
      case None => None
      case Some(key) => if key.1 == [] || key.1[0] != ',' then None else ReadAfterKey(key.0, key.1[1..])
  }

  function ReadAfterKey(pubkey: string, s: string): Option<Fields> {
    match ReadNumber(s)
    case None => None
    case Some(time) =>
      match ReadNumber(time.1)
      case None => None
      case Some(kind) =>
        match ReadTagList(kind.1)
        case None => None
        case Some(tags) =>
          match ReadContent(tags.1)
          case None => None
          case Some(content) => Some(Fields(pubkey, time.0, kind.0, tags.0, content))
  }

  lemma ReadsNumberBack(n: int, rest: string)
    requires -MAX_INT - 1 <= n <= MAX_INT
    ensures ReadNumber(Itoa(n) + "," + rest) == Some((n, rest))
  {
    hide Atoi, Itoa, Cut;
    AtoiReadsBack(n);
    OnlyDigits(n);
    CutsAtTheFirst(Itoa(n), ',', rest);
  }

  lemma ReadsTagListBack(tags: seq<Tag>, rest: string)
    ensures ReadTagList("[" + Joined(TagTexts(tags)) + "]" + rest) == Some((tags, rest))
  {
    hide ReadTags;
    var text := "[" + Joined(TagTexts(tags)) + "]" + rest;
    if tags == [] {
      assert text[2..] == rest;
    } else {
      assert text[1..] == Joined(TagTexts(tags)) + "]" + rest;
      assert TagTexts(tags)[0][0] == '[';
      assert text[1] == '[';
      ReadsTagsBack(tags, rest);
    }
  }

  lemma ReadsContentBack(content: string)
    ensures ReadContent("," + Quoted(content) + "]") == Some(content)
  {
    hide ReadString, EscapeAll;
    var text := "," + Quoted(content) + "]";
    assert text[2..] == EscapeAll(content) + "\"" + "]";
    ReadsStringBack(content, "]");
  }

  predicate HasMachineNumbers(e: Event) {
    -MAX_INT - 1 <= e.createdAt <= MAX_INT && -MAX_INT - 1 <= e.kind <= MAX_INT
  }

  lemma ReadsAfterKeyBack(e: Event)
    requires HasMachineNumbers(e)
    ensures ReadAfterKey(e.pubkey, AfterKey(e)) == Some(FieldsOf(e))
  {
    hide ReadNumber, ReadTagList, ReadContent, Itoa, Joined, TagTexts, Quoted;
    var content := "," + Quoted(e.content) + "]";
    var list := "[" + Joined(TagTexts(e.tags)) + "]" + content;
    var kind := Itoa(e.kind) + "," + list;
    assert AfterKey(e) == Itoa(e.createdAt) + "," + kind;
    ReadsNumberBack(e.createdAt, kind);
    ReadsNumberBack(e.kind, list);
    ReadsTagListBack(e.tags, content);
    ReadsContentBack(e.content);
  }

  lemma LineFeedSpelledOut()
    ensures Quoted("h\n") == "\"h\\n\""
  {
    assert "h\n"[1..] == "\n" && "\n"[1..] == "";
  }

  lemma LettersSpelledOut()
    ensures Quoted("e") == "\"e\"" && Quoted("x") == "\"x\""
  {
    assert "e"[1..] == "" && "x"[1..] == "";
  }

  lemma NumbersSpelledOut()
    ensures Itoa(12) == "12" && Itoa(1) == "1"
  {
  }

  lemma TagsSpelledOut()
    ensures Joined(TagTexts([["e", "x"], []])) == "[\"e\",\"x\"],[]"
  {
    hide Quoted;
    var tags: seq<Tag> := [["e", "x"], []];
    LettersSpelledOut();
    assert tags[1..] == [[]] && tags[1..][1..] == [];
    assert ["e", "x"][1..] == ["x"] && ["x"][1..] == [];
    assert QuotedAll(["e", "x"]) == [Quoted("e"), Quoted("x")];
  }

  // A serialization spelled out: no spaces, and the fields in this order.
  lemma EventSpelledOut(e: Event)
    requires FieldsOf(e) == Fields("ab", 12, 1, [["e", "x"], []], "h\n")
    ensures Serialize(e) == "[0,\"ab\",12,1,[[\"e\",\"x\"],[]],\"h\\n\"]"
  {
    hide Quoted, Itoa, Joined, TagTexts;
    TagsSpelledOut();
    LineFeedSpelledOut();
    NumbersSpelledOut();
  }

  // What Serialize writes after the key and its comma.
  function AfterKey(e: Event): string {
    Itoa(e.createdAt) + "," + Itoa(e.kind) + "," + "[" + Joined(TagTexts(e.tags)) + "]," + Quoted(e.content) + "]"
  }

  // A serialization tells every field it covers.
  lemma ReadsEventBack(e: Event)
    requires '"' !in e.pubkey && HasMachineNumbers(e)
    ensures ReadEvent(Serialize(e)) == Some(FieldsOf(e))
  {
    hide Cut, AfterKey, ReadAfterKey;
    SerializeSplits(e);
    var text := "[0,\"" + (e.pubkey + ['"'] + ("," + AfterKey(e)));
    assert text[..4] == "[0,\"" && text[4..] == e.pubkey + ['"'] + ("," + AfterKey(e));
    CutsAtTheFirst(e.pubkey, '"', "," + AfterKey(e));
    assert ("," + AfterKey(e))[1..] == AfterKey(e);
    ReadsAfterKeyBack(e);
  }

  lemma SerializeSplits(e: Event)
    ensures Serialize(e) == "[0,\"" + (e.pubkey + ['"'] + ("," + AfterKey(e)))
  {
    hide Itoa, Joined, TagTexts, Quoted;
  }

  lemma SerializeIsInjective(a: Event, b: Event)
    requires '"' !in a.pubkey && '"' !in b.pubkey && HasMachineNumbers(a) && HasMachineNumbers(b)
    requires Serialize(a) == Serialize(b)
    ensures FieldsOf(a) == FieldsOf(b)
  {
    ReadsEventBack(a);
    ReadsEventBack(b);
  }

  // ----- the methods -----

  lemma {:induction false} EscapeAllGrows(s: string, c: char)
    ensures EscapeAll(s + [c]) == EscapeAll(s) + EscapeChar(c)
  {
    hide EscapeChar;
    if s == [] {
      assert (s + [c])[1..] == [];
    } else {
      EscapeAllGrows(s[1..], c);
      assert (s + [c])[1..] == s[1..] + [c];
    }
  }

  method EscapeString(dst: string, s: string) returns (r: string)
    ensures r == dst + Quoted(s)
  {
    hide EscapeChar;
    r := dst + "\"";
    for i := 0 to |s|
      invariant r == dst + "\"" + EscapeAll(s[..i])
    {
      assert s[..i + 1] == s[..i] + [s[i]];
      EscapeAllGrows(s[..i], s[i]);
      r := r + EscapeChar(s[i]);
    }
    assert s[..|s|] == s;
    r := r + "\"";
  }

  function Comma(i: nat): string {
    if i > 0 then "," else ""
  }

  lemma NextString(tag: Tag, i: nat)
    requires i < |tag|
    ensures Joined(QuotedAll(tag[..i + 1])) == Joined(QuotedAll(tag[..i])) + Comma(i) + Quoted(tag[i])
  {
    hide Quoted;
    QuotedAllGrows(tag[..i], tag[i]);
    assert tag[..i + 1] == tag[..i] + [tag[i]];
    JoinedGrows(QuotedAll(tag[..i]), Quoted(tag[i]));
  }

  lemma NextTag(tags: seq<Tag>, i: nat)
    requires i < |tags|
    ensures Joined(TagTexts(tags[..i + 1])) == Joined(TagTexts(tags[..i])) + Comma(i) + TagText(tags[i])
  {
    hide TagText;
    TagTextsGrow(tags[..i], tags[i]);
    assert tags[..i + 1] == tags[..i] + [tags[i]];
    JoinedGrows(TagTexts(tags[..i]), TagText(tags[i]));
  }

  lemma {:induction false} QuotedAllGrows(tag: Tag, s: string)
    ensures |QuotedAll(tag)| == |tag| && QuotedAll(tag + [s]) == QuotedAll(tag) + [Quoted(s)]
  {
    if tag != [] {
      QuotedAllGrows(tag[1..], s);
      assert (tag + [s])[1..] == tag[1..] + [s];
    }
  }

  lemma {:induction false} TagTextsGrow(tags: seq<Tag>, tag: Tag)
    ensures |TagTexts(tags)| == |tags| && TagTexts(tags + [tag]) == TagTexts(tags) + [TagText(tag)]
  {
    if tags != [] {
      TagTextsGrow(tags[1..], tag);
      assert (tags + [tag])[1..] == tags[1..] + [tag];
    }
  }

  method AppendTag(dst: string, tag: Tag) returns (r: string)
    ensures r == dst + TagText(tag)
  {
    hide Quoted;
    r := dst + "[";
    for i := 0 to |tag|
      invariant r == dst + "[" + Joined(QuotedAll(tag[..i]))
    {
      hide Quoted, Joined, QuotedAll;
      NextString(tag, i);
      if i > 0 {
        r := r + ",";
      }
      r := EscapeString(r, tag[i]);
    }
    assert tag[..|tag|] == tag;
    r := r + "]";
  }

  method AppendTags(dst: string, tags: seq<Tag>) returns (r: string)
    ensures r == dst + Joined(TagTexts(tags))
  {
    hide TagText;
    r := dst;
    for i := 0 to |tags|
      invariant r == dst + Joined(TagTexts(tags[..i]))
    {
      NextTag(tags, i);
      if i > 0 {
        r := r + ",";
      }
      r := AppendTag(r, tags[i]);
    }
    assert tags[..|tags|] == tags;
  }

  method SerializeEventInto(evt: Event, dst: string) returns (r: string)
    ensures r == dst + Serialize(evt)
  {
    hide TagText, Quoted, Joined, Itoa, TagTexts;
    r := dst + "[0,\"" + evt.pubkey + "\"," + Itoa(evt.createdAt) + "," + Itoa(evt.kind) + "," + "[";
    r := AppendTags(r, evt.tags);
    r := r + "],";
    r := EscapeString(r, evt.content);
    r := r + "]";
  }

  // ----- ids -----

  type Sha256 = h: string -> seq<byte> | forall m :: |h(m)| == 32 witness m => seq(32, _ => 0)

  function GetID(e: Event, sha: Sha256): string {
    Hex(sha(Serialize(e)))
  }

  method CheckID(evt: Event, sha: Sha256) returns (ok: bool)
    ensures ok <==> evt.id == GetID(evt, sha)
  {
    hide Serialize, Hex;
    HexAppend(sha(Serialize(evt)), []);
    if |evt.id| != 64 {
      return false;
    }
    var ser := SerializeEventInto(evt, "");
    assert ser == Serialize(evt);
    ok := Spells(evt.id, sha(ser));
  }

  // Digit by digit, without writing the hash out.
  method Spells(id: string, h: seq<byte>) returns (ok: bool)
    requires |id| == 64 && |h| == 32
    ensures ok <==> id == Hex(h)
  {
    hide Hex;
    HexAppend(h, []);
    for i := 0 to 32
      invariant forall k :: 0 <= k < 2 * i ==> id[k] == Hex(h)[k]
    {
      HexDigits(h, i);
      if HEX_TABLE[h[i] / 16] != id[i * 2] {
        return false;
      }
      if HEX_TABLE[h[i] % 16] != id[i * 2 + 1] {
        return false;
      }
    }
    ok := true;
  }

  lemma {:induction false} HexDigits(bs: seq<byte>, i: nat)
    requires i < |bs|
    ensures |Hex(bs)| == 2 * |bs|
    ensures Hex(bs)[2 * i] == HEX_TABLE[bs[i] / 16] && Hex(bs)[2 * i + 1] == HEX_TABLE[bs[i] % 16]
  {
    HexAppend(bs, []);
    assert bs + [] == bs;
    if i > 0 {
      HexDigits(bs[1..], i - 1);
    }
  }

  // Unless two serializations collide, events that pass the check and share an
  // id are the same.
  lemma IdDeterminesEvent(a: Event, b: Event, sha: Sha256)
    requires '"' !in a.pubkey && '"' !in b.pubkey && HasMachineNumbers(a) && HasMachineNumbers(b)
    requires a.id == GetID(a, sha) && b.id == GetID(b, sha) && a.id == b.id
    requires sha(Serialize(a)) == sha(Serialize(b)) ==> Serialize(a) == Serialize(b)
    ensures a == b
  {
    HexIsInjective(sha(Serialize(a)), sha(Serialize(b)));
    SerializeIsInjective(a, b);
  }
}
