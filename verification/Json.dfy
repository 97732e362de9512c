/** JSON values, their canonical text (RFC 8785) and a reader of JSON text (RFC 8259). */
module Json {
  import opened Text

  datatype Json =
    | Null
    | Bool(truth: bool)
    | Number(literal: string)
    | Str(text: string)
    | Arr(items: seq<Json>)
    | Obj(members: seq<Member>)

  datatype Member = Member(name: string, value: Json)

  // ----- Printing

  function HexDigit(n: nat): char
    requires n < 16
  {
    "0123456789abcdef"[n]
  }

  /** Section 3.2.2.2 of RFC 8785: the two-character escapes, lower-case \u00xx for the other control
      characters, and every other character as itself. */
  function Escape(c: char): string {
    match c
    case '"' => "\\\""
    case '\\' => "\\\\"
    case '\U{8}' => "\\b"
    case '\U{c}' => "\\f"
    case '\n' => "\\n"
    case '\r' => "\\r"
    case '\t' => "\\t"
    case _ =>
      if c <= '\U{1f}' then "\\u00" + [HexDigit(c as int / 16), HexDigit(c as int % 16)] else [c]
  }

  function EscapeAll(s: string): string {
    if s == [] then [] else Escape(s[0]) + EscapeAll(s[1..])
  }

  lemma {:induction false} EscapeAllAppend(s: string, c: char)
    ensures EscapeAll(s + [c]) == EscapeAll(s) + Escape(c)
  {
    if s == [] {
      assert EscapeAll([c]) == Escape(c) + EscapeAll([]);
    } else {
      EscapeAllAppend(s[1..], c);
      assert (s + [c])[0] == s[0] && (s + [c])[1..] == s[1..] + [c];
      Append2(Escape(s[0]), EscapeAll(s[1..]), Escape(c));
    }
  }

  /** No character of the string needs an escape. */
  predicate Plain(s: string) {
    forall i | 0 <= i < |s| :: s[i] > '\U{1f}' && s[i] != '"' && s[i] != '\\'
  }

  lemma PlainQuoted(s: string)
    requires Plain(s)
    ensures Quoted(s) == "\"" + s + "\""
  {
    PlainEscape(s);
  }

  lemma {:induction false} PlainEscape(s: string)
    requires Plain(s)
    ensures EscapeAll(s) == s
  {
    if s != [] {
      PlainEscape(s[1..]);
      assert Escape(s[0]) == [s[0]] && s == [s[0]] + s[1..];
    }
  }

  function Quoted(s: string): string {
    "\"" + EscapeAll(s) + "\""
  }

  /** The text of a value with members in the order they are in, without white space. Numbers print as
      their literal. */
  function Print(v: Json): string
    decreases v, 0
  {
    match v
    case Null => "null"
    case Bool(b) => if b then "true" else "false"
    case Number(literal) => literal
    case Str(text) => Quoted(text)
    case Arr(items) => "[" + PrintItems(items) + "]"
    case Obj(members) => "{" + PrintMembers(members) + "}"
  }

  function PrintItems(items: seq<Json>): string
    decreases items
  {
    if items == [] then ""
    else if |items| == 1 then Print(items[0])
    else Print(items[0]) + "," + PrintItems(items[1..])
  }

  function PrintMember(m: Member): string
    decreases m
  {
    Quoted(m.name) + ":" + Print(m.value)
  }

  function PrintMembers(members: seq<Member>): string
    decreases members
  {
    if members == [] then ""
    else if |members| == 1 then PrintMember(members[0])
    else PrintMember(members[0]) + "," + PrintMembers(members[1..])
  }

  // ----- Canonical order

  /** The UTF-16 code units of a character, moved past the surrogate range so that a string can hold them;
      the shift keeps their order, which section 3.2.3 of RFC 8785 sorts by. A character beyond the sixteen
      bits is the number its pair of surrogates encodes. */
  function Units(c: char): (u: string)
    ensures c as int < 0x1_0000 ==> |u| == 1 && u[0] as int == c as int + if c as int < 0xd800 then 0 else 0x1000
    ensures c as int >= 0x1_0000 ==>
              && |u| == 2 && 0xd800 <= u[0] as int - 0x1000 < 0xdc00 <= u[1] as int - 0x1000 < 0xe000
              && c as int == 0x1_0000 + (u[0] as int - 0xe800) * 0x400 + (u[1] as int - 0xec00)
  {
    var n := c as int;
    if n < 0xd800 then [c]
    else if n < 0x1_0000 then [(n + 0x1000) as char]
    else [(0xe800 + (n - 0x1_0000) / 0x400) as char, (0xec00 + (n - 0x1_0000) % 0x400) as char]
  }

  /** The code units of a name. */
  function CodeUnits(name: string): string {
    if name == [] then [] else Units(name[0]) + CodeUnits(name[1..])
  }

  const ByName: Member -> string := (m: Member) => CodeUnits(m.name)

  /** Members sorted by name, at every depth. */
  function Canon(v: Json): Json
    decreases v, 0
  {
    match v
    case Arr(items) => Arr(CanonItems(items))
    case Obj(members) => Obj(SortBy(CanonMembers(members), ByName))
    case _ => v
  }

  function CanonItems(items: seq<Json>): seq<Json>
    decreases items
  {
    if items == [] then [] else [Canon(items[0])] + CanonItems(items[1..])
  }

  function CanonMembers(members: seq<Member>): seq<Member>
    decreases members
  {
    if members == [] then []
    else [Member(members[0].name, Canon(members[0].value))] + CanonMembers(members[1..])
  }

  /** JSON Canonicalization Scheme. */
  function Jcs(v: Json): string {
    Print(Canon(v))
  }

  // ----- Reading

  datatype Read<+T> = Fail | Read(value: T, rest: string)

  predicate IsBlank(c: char) {
    c in {' ', '\t', '\n', '\r'}
  }

  function SkipBlanks(s: string): (t: string)
    ensures |t| <= |s|
  {
    if s != [] && IsBlank(s[0]) then SkipBlanks(s[1..]) else s
  }

  function HexValue(c: char): Option<nat> {
    if '0' <= c <= '9' then Some(c as int - '0' as int)
    else if 'a' <= c <= 'f' then Some(c as int - 'a' as int + 10)
    else if 'A' <= c <= 'F' then Some(c as int - 'A' as int + 10)
    else None
  }

  /** The code unit written by four hexadecimal digits. */
  function ReadUnit(s: string): (r: Read<nat>)
    ensures r.Read? ==> r.value < 0x1_0000 && |r.rest| + 4 == |s|
  {
    if |s| < 4 then Fail
    else
      match (HexValue(s[0]), HexValue(s[1]), HexValue(s[2]), HexValue(s[3]))
      case (Some(a), Some(b), Some(c), Some(d)) =>
        if a < 16 && b < 16 && c < 16 && d < 16 then Read(a * 4096 + b * 256 + c * 16 + d, s[4..]) else Fail
      case _ => Fail
  }

  /** The character after `\u`: one code unit, or a surrogate pair. */
  function ReadUnicode(s: string): (r: Read<char>)
    ensures r.Read? ==> |r.rest| < |s|
  {
    match ReadUnit(s)
    case Fail => Fail
    case Read(unit, rest) =>
      if unit < 0xd800 || 0xe000 <= unit then Read(unit as char, rest)
      else if unit < 0xdc00 && |rest| >= 2 && rest[0] == '\\' && rest[1] == 'u' then
        match ReadUnit(rest[2..])
        case Read(low, rest') =>
          if 0xdc00 <= low < 0xe000
          then Read((0x1_0000 + (unit - 0xd800) * 0x400 + (low - 0xdc00)) as char, rest')
          else Fail
        case Fail => Fail
      else Fail
  }

  /** One character of a string's inside. */
  function ReadChar(s: string): (r: Read<char>)
    ensures r.Read? ==> |r.rest| < |s|
  {
    if s == [] || s[0] <= '\U{1f}' || s[0] == '"' then Fail
    else if s[0] != '\\' then Read(s[0], s[1..])
    else if |s| == 1 then Fail
    else
      match s[1]
      case '"' => Read('"', s[2..])
      case '\\' => Read('\\', s[2..])
      case '/' => Read('/', s[2..])
      case 'b' => Read('\U{8}', s[2..])
      case 'f' => Read('\U{c}', s[2..])
      case 'n' => Read('\n', s[2..])
      case 'r' => Read('\r', s[2..])
      case 't' => Read('\t', s[2..])
      case 'u' => ReadUnicode(s[2..])
      case _ => Fail
  }

  /** The inside of a string, up to and including the closing quote. */
  function ReadChars(s: string): (r: Read<string>)
    ensures r.Read? ==> |r.rest| < |s|
    decreases |s|
  {
    if s != [] && s[0] == '"' then Read([], s[1..])
    else
      match ReadChar(s)
      case Fail => Fail
      case Read(c, rest) =>
        match ReadChars(rest)
        case Fail => Fail
        case Read(cs, rest') => Read([c] + cs, rest')
  }

  /** A value, after optional white space. The manifest holds no numbers and this reader knows none. */
  function ReadValue(text: string): (r: Read<Json>)
    ensures r.Read? ==> |r.rest| < |text|
    decreases |text|, 0
  {
    var s := SkipBlanks(text);
    if "null" <= s then Read(Null, s[4..])
    else if "true" <= s then Read(Bool(true), s[4..])
    else if "false" <= s then Read(Bool(false), s[5..])
    else if s == [] then Fail
    else if s[0] == '"' then
      match ReadChars(s[1..])
      case Fail => Fail
      case Read(cs, rest) => Read(Str(cs), rest)
    else if s[0] == '[' then
      var t := SkipBlanks(s[1..]);
      if t != [] && t[0] == ']' then Read(Arr([]), t[1..])
      else
        match ReadItems(t)
        case Fail => Fail
        case Read(items, rest) => Read(Arr(items), rest)
    else if s[0] == '{' then
      var t := SkipBlanks(s[1..]);
      if t != [] && t[0] == '}' then Read(Obj([]), t[1..])
      else
        match ReadMembers(t)
        case Fail => Fail
        case Read(members, rest) => Read(Obj(members), rest)
    else Fail
  }

  /** Items separated by commas, through the closing bracket. */
  function ReadItems(s: string): (r: Read<seq<Json>>)
    ensures r.Read? ==> |r.rest| < |s|
    decreases |s|, 1
  {
    match ReadValue(s)
    case Fail => Fail
    case Read(item, rest) =>
      var t := SkipBlanks(rest);
      if t == [] then Fail
      else if t[0] == ']' then Read([item], t[1..])
      else if t[0] != ',' then Fail
      else
        match ReadItems(t[1..])
        case Fail => Fail
        case Read(items, rest') => Read([item] + items, rest')
  }

  function ReadMember(text: string): (r: Read<Member>)
    ensures r.Read? ==> |r.rest| < |text|
    decreases |text|, 1
  {
    var s := SkipBlanks(text);
    if s == [] || s[0] != '"' then Fail
    else
      match ReadChars(s[1..])
      case Fail => Fail
      case Read(name, rest) =>
        var t := SkipBlanks(rest);
        if t == [] || t[0] != ':' then Fail
        else
          match ReadValue(t[1..])
          case Fail => Fail
          case Read(value, rest') => Read(Member(name, value), rest')
  }

  /** Members separated by commas, through the closing brace. */
  function ReadMembers(s: string): (r: Read<seq<Member>>)
    ensures r.Read? ==> |r.rest| < |s|
    decreases |s|, 2
  {
    match ReadMember(s)
    case Fail => Fail
    case Read(member, rest) =>
      var t := SkipBlanks(rest);
      if t == [] then Fail
      else if t[0] == '}' then Read([member], t[1..])
      else if t[0] != ',' then Fail
      else
        match ReadMembers(t[1..])
        case Fail => Fail
        case Read(members, rest') => Read([member] + members, rest')
  }

  // ----- The reader inverts the printer

  predicate NumberFree(v: Json) {
    match v
    case Number(_) => false
    case Arr(items) => forall i | i in items :: NumberFree(i)
    case Obj(members) => forall m | m in members :: NumberFree(m.value)
    case _ => true
  }

  lemma ReadHexUnit(n: nat, rest: string)
    requires n < 0x20
    ensures ReadUnit("00" + [HexDigit(n / 16), HexDigit(n % 16)] + rest) == Read(n, rest)
  {
    var digits := "00" + [HexDigit(n / 16), HexDigit(n % 16)];
    assert (digits + rest)[4..] == rest;
  }

  /** Every escape form reads back as the one character it stands for. */
  lemma ReadEscape(c: char, rest: string)
    ensures ReadChar(Escape(c) + rest) == Read(c, rest)
  {
    var s := Escape(c) + rest;
    if |Escape(c)| == 6 {
      ReadHexUnit(c as int, rest);
      assert s[2..] == "00" + [HexDigit(c as int / 16), HexDigit(c as int % 16)] + rest;
    } else if |Escape(c)| == 2 {
      assert s[0] == Escape(c)[0] && s[1] == Escape(c)[1];
      assert s[2..] == rest;
    } else {
      assert s[1..] == rest;
    }
  }

  lemma EscapeStarts(c: char)
    ensures Escape(c) != "" && Escape(c)[0] != '"'
  {
  }

  lemma ReadCharsStep(c: char, tail: string)
    requires ReadChars(tail).Read?
    ensures ReadChars(Escape(c) + tail) == Read([c] + ReadChars(tail).value, ReadChars(tail).rest)
  {
    ReadEscape(c, tail);
    EscapeStarts(c);
    assert (Escape(c) + tail)[0] == Escape(c)[0];
  }

  lemma {:induction false} ReadEscapeAll(s: string, rest: string)
    ensures ReadChars(EscapeAll(s) + "\"" + rest) == Read(s, rest)
  {
    if s == [] {
      ReadQuoteStep(rest);
    } else {
      Append3(Escape(s[0]), EscapeAll(s[1..]), "\"", rest);
      ReadEscapeAll(s[1..], rest);
      ReadCharsStep(s[0], EscapeAll(s[1..]) + "\"" + rest);
      assert s == [s[0]] + s[1..];
    }
  }

  lemma ReadQuoteStep(rest: string)
    ensures ReadChars("" + "\"" + rest) == Read("", rest)
  {
    var text := "" + "\"" + rest;
    assert text[0] == '"' && text[1..] == rest;
  }

  /** The text of a value never begins with a blank or a closing bracket. */
  predicate StartsValue(s: string) {
    s != "" && s[0] in {'n', 't', 'f', '"', '[', '{'}
  }

  lemma PrintStarts(v: Json, rest: string)
    requires NumberFree(v)
    ensures StartsValue(Print(v) + rest)
  {
  }

  // One step of each reader, on text that needs no blanks skipped.

  lemma ReadStringStep(s: string, rest: string)
    ensures ReadValue(Quoted(s) + rest) == Read(Str(s), rest)
  {
    var text := Quoted(s) + rest;
    assert text[0] == '"' && text[1..] == EscapeAll(s) + "\"" + rest;
    assert SkipBlanks(text) == text;
    ReadEscapeAll(s, rest);
  }

  lemma ReadArrayStep(t: string)
    requires StartsValue(t)
    ensures ReadValue("[" + t) ==
            match ReadItems(t) case Fail => Fail case Read(items, rest) => Read(Arr(items), rest)
  {
    var text := "[" + t;
    assert text[0] == '[' && text[1..] == t;
    assert SkipBlanks(text) == text && SkipBlanks(t) == t;
  }

  lemma ReadObjectStep(t: string)
    requires t != "" && t[0] == '"'
    ensures ReadValue("{" + t) ==
            match ReadMembers(t) case Fail => Fail case Read(members, rest) => Read(Obj(members), rest)
  {
    var text := "{" + t;
    assert text[0] == '{' && text[1..] == t;
    assert SkipBlanks(text) == text && SkipBlanks(t) == t;
  }

  lemma ReadEmptyStep(rest: string)
    ensures ReadValue("[]" + rest) == Read(Arr([]), rest)
    ensures ReadValue("{}" + rest) == Read(Obj([]), rest)
  {
    var text := "[]" + rest;
    assert text[1..] == "]" + rest && ("]" + rest)[1..] == rest;
    var text' := "{}" + rest;
    assert text'[1..] == "}" + rest && ("}" + rest)[1..] == rest;
  }

  lemma ReadItemsStep(text: string, item: Json, mark: char, t: string)
    requires ReadValue(text) == Read(item, [mark] + t)
    ensures mark == ']' ==> ReadItems(text) == Read([item], t)
    ensures mark == ',' && ReadItems(t).Read? ==>
              ReadItems(text) == Read([item] + ReadItems(t).value, ReadItems(t).rest)
  {
    assert ([mark] + t)[1..] == t;
  }

  lemma ReadMembersStep(text: string, member: Member, mark: char, t: string)
    requires ReadMember(text) == Read(member, [mark] + t)
    ensures mark == '}' ==> ReadMembers(text) == Read([member], t)
    ensures mark == ',' && ReadMembers(t).Read? ==>
              ReadMembers(text) == Read([member] + ReadMembers(t).value, ReadMembers(t).rest)
  {
    assert ([mark] + t)[1..] == t;
  }

  lemma ReadMemberStep(name: string, t: string)
    ensures ReadMember(Quoted(name) + ":" + t) ==
            match ReadValue(t) case Fail => Fail case Read(value, rest) => Read(Member(name, value), rest)
  {
    var text := Quoted(name) + ":" + t;
    QuotedInside(name, t);
    ReadEscapeAll(name, ":" + t);
    assert SkipBlanks(text) == text && SkipBlanks(":" + t) == ":" + t;
    assert (":" + t)[1..] == t;
  }

  lemma QuotedInside(name: string, t: string)
    ensures var text := Quoted(name) + ":" + t;
            text[0] == '"' && text[1..] == EscapeAll(name) + "\"" + (":" + t)
  {
  }

  lemma PrintItemsText(items: seq<Json>, rest: string)
    requires items != []
    ensures PrintItems(items) + "]" + rest ==
            Print(items[0]) + (if |items| == 1 then "]" + rest else "," + (PrintItems(items[1..]) + "]" + rest))
  {
    if |items| == 1 {
      Append2(Print(items[0]), "]", rest);
    } else {
      RegroupItems(Print(items[0]), PrintItems(items[1..]), rest);
    }
  }

  lemma RegroupItems(item: string, more: string, rest: string)
    ensures (item + "," + more) + "]" + rest == item + ("," + (more + "]" + rest))
  {
  }

  lemma {:induction false} PrintMembersText(members: seq<Member>, rest: string)
    requires members != []
    ensures PrintMembers(members) + "}" + rest ==
            Quoted(members[0].name) + ":" + (Print(members[0].value) +
              (if |members| == 1 then "}" + rest else "," + (PrintMembers(members[1..]) + "}" + rest)))
  {
    var name, value := Quoted(members[0].name), Print(members[0].value);
    if |members| == 1 {
      RegroupLast(name, value, rest);
    } else {
      RegroupMore(name, value, PrintMembers(members[1..]), rest);
    }
  }

  lemma RegroupLast(name: string, value: string, rest: string)
    ensures (name + ":" + value) + "}" + rest == name + ":" + (value + ("}" + rest))
  {
  }

  lemma RegroupMore(name: string, value: string, more: string, rest: string)
    ensures ((name + ":" + value) + "," + more) + "}" + rest == name + ":" + (value + ("," + (more + "}" + rest)))
  {
  }

  lemma {:induction false} ReadPrint(v: Json, rest: string)
    requires NumberFree(v)
    ensures ReadValue(Print(v) + rest) == Read(v, rest)
    decreases v, 0
  {
    match v {
      case Null => ReadLiteralStep(rest);
      case Bool(b) => ReadLiteralStep(rest);
      case Str(s) => ReadStringStep(s, rest);
      case Arr(items) => ReadPrintArray(items, rest);
      case Obj(members) => ReadPrintObject(members, rest);
    }
  }

  lemma ReadLiteralStep(rest: string)
    ensures ReadValue("null" + rest) == Read(Null, rest)
    ensures ReadValue("true" + rest) == Read(Bool(true), rest)
    ensures ReadValue("false" + rest) == Read(Bool(false), rest)
  {
    assert ("null" + rest)[4..] == rest;
    assert ("true" + rest)[4..] == rest;
    assert ("false" + rest)[5..] == rest;
  }

  lemma {:induction false} ReadPrintArray(items: seq<Json>, rest: string)
    requires forall i | i in items :: NumberFree(i)
    ensures ReadValue("[" + PrintItems(items) + "]" + rest) == Read(Arr(items), rest)
    decreases items, 1
  {
    if items == [] {
      assert "[" + PrintItems(items) + "]" + rest == "[]" + rest;
      ReadEmptyStep(rest);
    } else {
      var t := PrintItems(items) + "]" + rest;
      assert "[" + PrintItems(items) + "]" + rest == "[" + t;
      PrintItemsText(items, rest);
      PrintStarts(items[0], t[|Print(items[0])|..]);
      ReadArrayStep(t);
      ReadPrintItems(items, rest);
    }
  }

  lemma {:induction false} ReadPrintObject(members: seq<Member>, rest: string)
    requires forall m | m in members :: NumberFree(m.value)
    ensures ReadValue("{" + PrintMembers(members) + "}" + rest) == Read(Obj(members), rest)
    decreases members, 1
  {
    if members == [] {
      assert "{" + PrintMembers(members) + "}" + rest == "{}" + rest;
      ReadEmptyStep(rest);
    } else {
      var t := PrintMembers(members) + "}" + rest;
      assert "{" + PrintMembers(members) + "}" + rest == "{" + t;
      PrintMembersText(members, rest);
      ReadObjectStep(t);
      ReadPrintMembers(members, rest);
    }
  }

  lemma {:induction false} ReadPrintItems(items: seq<Json>, rest: string)
    requires items != []
    requires forall i | i in items :: NumberFree(i)
    ensures ReadItems(PrintItems(items) + "]" + rest) == Read(items, rest)
    decreases items, 0
  {
    PrintItemsText(items, rest);
    var text := PrintItems(items) + "]" + rest;
    if |items| == 1 {
      ReadPrint(items[0], "]" + rest);
      ReadItemsStep(text, items[0], ']', rest);
      assert items == [items[0]];
    } else {
      var t := PrintItems(items[1..]) + "]" + rest;
      ReadPrint(items[0], "," + t);
      ReadItemsStep(text, items[0], ',', t);
      ReadPrintItems(items[1..], rest);
      assert items == [items[0]] + items[1..];
    }
  }

  lemma {:induction false} ReadPrintMembers(members: seq<Member>, rest: string)
    requires members != []
    requires forall m | m in members :: NumberFree(m.value)
    ensures ReadMembers(PrintMembers(members) + "}" + rest) == Read(members, rest)
    decreases members, 0
  {
    PrintMembersText(members, rest);
    var text := PrintMembers(members) + "}" + rest;
    var m := members[0];
    if |members| == 1 {
      ReadMemberStep(m.name, Print(m.value) + ("}" + rest));
      ReadPrint(m.value, "}" + rest);
      ReadMembersStep(text, m, '}', rest);
      assert members == [m];
    } else {
      var t := PrintMembers(members[1..]) + "}" + rest;
      ReadMemberStep(m.name, Print(m.value) + ("," + t));
      ReadPrint(m.value, "," + t);
      ReadMembersStep(text, m, ',', t);
      ReadPrintMembers(members[1..], rest);
      assert members == [m] + members[1..];
    }
  }

  // ----- The printer is the tersest writer

  /** A six-character escape without upper-case digits. */
  predicate LowerEscape(s: string) {
    |s| == 6 ==> forall i | 2 <= i < 6 :: !('A' <= s[i] <= 'F')
  }

  /** What the reader takes for a character is at least as long as its escape. */
  lemma CharCost(s: string)
    requires ReadChar(s).Read?
    ensures |s| >= |Escape(ReadChar(s).value)| + |ReadChar(s).rest|
  {
  }

  lemma LowerHexRoundTrip(c: char)
    requires HexValue(c).Some? && !('A' <= c <= 'F')
    ensures HexValue(c).value < 16 && HexDigit(HexValue(c).value) == c
  {
  }

  /** Lower-case hexadecimal digits are determined by the unit they write. */
  lemma UnitIsWrittenOnce(s: string)
    requires |s| == 4 && ReadUnit(s).Read? && ReadUnit(s).value < 0x20
    requires forall i | 0 <= i < 4 :: !('A' <= s[i] <= 'F')
    ensures s == "00" + [HexDigit(ReadUnit(s).value / 16), HexDigit(ReadUnit(s).value % 16)]
  {
    LowerHexRoundTrip(s[0]);
    LowerHexRoundTrip(s[1]);
    LowerHexRoundTrip(s[2]);
    LowerHexRoundTrip(s[3]);
    assert s == [s[0], s[1], s[2], s[3]];
  }

  lemma SixWrittenOnce(c: char, digits: string)
    requires ReadUnit(digits) == Read(c as int, "") && |Escape(c)| == 6
    requires forall i | 0 <= i < 4 :: !('A' <= digits[i] <= 'F')
    ensures "\\u" + digits == Escape(c)
  {
    UnitIsWrittenOnce(digits);
    assert "\\u00" == "\\u" + "00";
  }

  /** Of all the ways to write a character that the reader takes, the escape is the shortest, and the only
      one of its length up to the case of hexadecimal digits, which it writes in lower case. */
  lemma EscapeIsShortest(c: char, s: string)
    requires ReadChar(s) == Read(c, "")
    ensures |Escape(c)| <= |s| && LowerEscape(Escape(c))
    ensures |Escape(c)| == |s| && LowerEscape(s) ==> s == Escape(c)
  {
    CharCost(s);
    if |Escape(c)| == |s| {
      if |s| == 6 {
        if LowerEscape(s) {
          assert s == "\\u" + s[2..];
          SixWrittenOnce(c, s[2..]);
        }
      } else if |s| == 2 {
        assert s == ['\\', s[1]];
      } else {
        assert s == [c];
      }
    }
  }

  lemma {:induction false} CharsCost(s: string)
    requires ReadChars(s).Read?
    ensures |s| >= |EscapeAll(ReadChars(s).value)| + 1 + |ReadChars(s).rest|
    decreases |s|
  {
    if s[0] != '"' {
      var rest := ReadChar(s).rest;
      CharCost(s);
      CharsCost(rest);
      var text := ReadChars(s).value;
      assert text[0] == ReadChar(s).value && text[1..] == ReadChars(rest).value;
    }
  }

  /** Whatever text the reader takes for a value, the printed one is no longer: no white space, no escape
      that is not needed, none longer than need be. */
  lemma {:induction false} PrintIsShortest(s: string)
    requires ReadValue(s).Read?
    ensures |s| >= |Print(ReadValue(s).value)| + |ReadValue(s).rest|
    decreases |s|, 0
  {
    var u := SkipBlanks(s);
    if "null" <= u || "true" <= u || "false" <= u {
    } else if u[0] == '"' {
      CharsCost(u[1..]);
    } else {
      var t := SkipBlanks(u[1..]);
      if u[0] == '[' && t[0] != ']' {
        ItemsCost(t);
      } else if u[0] == '{' && t[0] != '}' {
        MembersCost(t);
      }
    }
  }

  lemma {:induction false} ItemsCost(s: string)
    requires ReadItems(s).Read?
    ensures |s| >= |PrintItems(ReadItems(s).value)| + 1 + |ReadItems(s).rest|
    decreases |s|, 1
  {
    PrintIsShortest(s);
    var t := SkipBlanks(ReadValue(s).rest);
    if t[0] == ',' {
      ItemsCost(t[1..]);
      assert ReadItems(s).value[1..] == ReadItems(t[1..]).value;
    }
  }

  lemma {:induction false} MembersCost(s: string)
    requires ReadMembers(s).Read?
    ensures |s| >= |PrintMembers(ReadMembers(s).value)| + 1 + |ReadMembers(s).rest|
    decreases |s|, 2
  {
    MemberCost(s);
    var t := SkipBlanks(ReadMember(s).rest);
    if t[0] == ',' {
      MembersCost(t[1..]);
      assert ReadMembers(s).value[1..] == ReadMembers(t[1..]).value;
    }
  }

  lemma {:induction false} MemberCost(s: string)
    requires ReadMember(s).Read?
    ensures |s| >= |PrintMember(ReadMember(s).value)| + |ReadMember(s).rest|
    decreases |s|, 1
  {
    var u := SkipBlanks(s);
    CharsCost(u[1..]);
    var t := SkipBlanks(ReadChars(u[1..]).rest);
    PrintIsShortest(t[1..]);
  }

  // ----- What a canonical text identifies

  /** No object, at any depth, repeats a member name. */
  predicate NoDuplicates(v: Json) {
    match v
    case Arr(items) => forall i | i in items :: NoDuplicates(i)
    case Obj(members) =>
      && (forall i, j | 0 <= i < j < |members| :: members[i].name != members[j].name)
      && (forall m | m in members :: NoDuplicates(m.value))
    case _ => true
  }

  /** Equal but for the order of members, at every depth: each member has its counterpart. */
  ghost predicate SameUpToOrder(v: Json, w: Json)
    decreases v
  {
    match (v, w)
    case (Arr(xs), Arr(ys)) => |xs| == |ys| && forall i | 0 <= i < |xs| :: SameUpToOrder(xs[i], ys[i])
    case (Obj(ms), Obj(ns)) =>
      |ms| == |ns| && (forall m | m in ms :: FoundIn(m, ns)) && (forall n | n in ns :: FoundBy(n, ms))
    case _ => v == w
  }

  ghost predicate FoundIn(m: Member, ns: seq<Member>)
    decreases m
  {
    exists n | n in ns :: m.name == n.name && SameUpToOrder(m.value, n.value)
  }

  ghost predicate FoundBy(n: Member, ms: seq<Member>)
    decreases ms
  {
    exists m | m in ms :: m.name == n.name && SameUpToOrder(m.value, n.value)
  }

  lemma {:induction false} CodeUnitsIdentify(a: string, b: string)
    requires CodeUnits(a) == CodeUnits(b)
    ensures a == b
  {
    if a != [] && b != [] {
      var u, v := CodeUnits(a), CodeUnits(b);
      FirstUnits(a);
      FirstUnits(b);
      assert a[0] == b[0];
      CodeUnitsIdentify(a[1..], b[1..]);
      assert a == [a[0]] + a[1..] && b == [b[0]] + b[1..];
    }
  }

  /** The first unit tells how many belong to the first character, and these which one it is. */
  lemma FirstUnits(a: string)
    requires a != []
    ensures var u := CodeUnits(a);
            && u != [] && CodeUnits(a[1..]) == u[|Units(a[0])|..]
            && a[0] as int == (
                 if u[0] as int < 0xd800 then u[0] as int
                 else if u[0] as int >= 0xf000 then u[0] as int - 0x1000
                 else 0x1_0000 + (u[0] as int - 0xe800) * 0x400 + (if |u| > 1 then u[1] as int - 0xec00 else 0))
            && |Units(a[0])| == (if 0xe800 <= u[0] as int < 0xf000 then 2 else 1)
  {
    var n := a[0] as int - 0x1_0000;
    if n >= 0 { assert n == n / 0x400 * 0x400 + n % 0x400; }
  }

  lemma {:induction false} CanonItemsAt(items: seq<Json>)
    ensures |CanonItems(items)| == |items|
    ensures forall i | 0 <= i < |items| :: CanonItems(items)[i] == Canon(items[i])
  {
    if items != [] { CanonItemsAt(items[1..]); }
  }

  lemma {:induction false} CanonMembersAt(members: seq<Member>)
    ensures |CanonMembers(members)| == |members|
    ensures forall i | 0 <= i < |members| :: CanonMembers(members)[i] == Member(members[i].name, Canon(members[i].value))
  {
    if members != [] { CanonMembersAt(members[1..]); }
  }

  /** Without repeated names a sorted arrangement is determined by the members alone. */
  lemma {:induction false} SortedMembersSame(ms: seq<Member>, ns: seq<Member>)
    requires forall i, j | 0 <= i < j < |ms| :: ms[i].name != ms[j].name
    requires forall i, j | 0 <= i < j < |ns| :: ns[i].name != ns[j].name
    requires forall m :: m in ms <==> m in ns
    ensures SortBy(ms, ByName) == SortBy(ns, ByName)
  {
    SameElementsOnce(ms, ns);
    SortByCorrect(ms, ByName);
    SortByCorrect(ns, ByName);
    var s := SortBy(ms, ByName);
    forall x, y | x in s && y in s && ByName(x) == ByName(y) ensures x == y {
      CodeUnitsIdentify(x.name, y.name);
      assert x in multiset(s) && y in multiset(s);
      assert x in ms && y in ms;
    }
    SortedUnique(s, SortBy(ns, ByName), ByName);
  }

  /** Some member of `ns` has the same name and the same canonical form. */
  ghost predicate CanonTwin(m: Member, ns: seq<Member>) {
    exists n | n in ns :: n.name == m.name && Canon(n.value) == Canon(m.value)
  }

  lemma CanonMembersMatch(ms: seq<Member>, ns: seq<Member>)
    requires forall m | m in ms :: CanonTwin(m, ns)
    ensures forall x | x in CanonMembers(ms) :: x in CanonMembers(ns)
  {
    forall x | x in CanonMembers(ms) ensures x in CanonMembers(ns) {
      InCanonMembers(ms, x);
      var m :| m in ms && x == Member(m.name, Canon(m.value));
      assert CanonTwin(m, ns);
      InCanonMembers(ns, x);
    }
  }

  lemma {:induction false} SameCanonObject(ms: seq<Member>, ns: seq<Member>)
    requires forall m | m in ms :: CanonTwin(m, ns)
    requires forall n | n in ns :: CanonTwin(n, ms)
    requires forall i, j | 0 <= i < j < |ms| :: ms[i].name != ms[j].name
    requires forall i, j | 0 <= i < j < |ns| :: ns[i].name != ns[j].name
    ensures SortBy(CanonMembers(ms), ByName) == SortBy(CanonMembers(ns), ByName)
  {
    CanonMembersAt(ms);
    CanonMembersAt(ns);
    CanonMembersMatch(ms, ns);
    CanonMembersMatch(ns, ms);
    SortedMembersSame(CanonMembers(ms), CanonMembers(ns));
  }

  lemma {:induction false} SameCanonItems(xs: seq<Json>, ys: seq<Json>)
    requires |xs| == |ys| && forall i | 0 <= i < |xs| :: SameUpToOrder(xs[i], ys[i])
    requires NoDuplicates(Arr(xs)) && NoDuplicates(Arr(ys))
    ensures CanonItems(xs) == CanonItems(ys)
    decreases xs
  {
    CanonItemsAt(xs);
    CanonItemsAt(ys);
    forall i | 0 <= i < |xs| ensures Canon(xs[i]) == Canon(ys[i]) {
      SameCanon(xs[i], ys[i]);
    }
  }

  lemma {:induction false} SameCanon(v: Json, w: Json)
    requires SameUpToOrder(v, w) && NoDuplicates(v) && NoDuplicates(w)
    ensures Canon(v) == Canon(w)
    decreases v
  {
    match (v, w) {
      case (Arr(xs), Arr(ys)) => SameCanonItems(xs, ys);
      case (Obj(ms), Obj(ns)) =>
        forall m | m in ms ensures CanonTwin(m, ns) {
          assert FoundIn(m, ns);
          var n :| n in ns && m.name == n.name && SameUpToOrder(m.value, n.value);
          SameCanon(m.value, n.value);
        }
        forall n | n in ns ensures CanonTwin(n, ms) {
          assert FoundBy(n, ms);
          var m :| m in ms && m.name == n.name && SameUpToOrder(m.value, n.value);
          SameCanon(m.value, n.value);
        }
        SameCanonObject(ms, ns);
      case _ =>
    }
  }

  lemma InCanonMembers(members: seq<Member>, x: Member)
    ensures x in CanonMembers(members) <==> exists m | m in members :: x == Member(m.name, Canon(m.value))
  {
    CanonMembersAt(members);
    if m :| m in members && x == Member(m.name, Canon(m.value)) {
      var i :| 0 <= i < |members| && members[i] == m;
      assert CanonMembers(members)[i] == x;
    }
  }

  lemma {:induction false} CanonSame(v: Json, w: Json)
    requires Canon(v) == Canon(w)
    ensures SameUpToOrder(v, w)
    decreases v
  {
    match (v, w) {
      case (Arr(xs), Arr(ys)) =>
        CanonItemsAt(xs);
        CanonItemsAt(ys);
        forall i | 0 <= i < |xs| ensures SameUpToOrder(xs[i], ys[i]) {
          assert CanonItems(xs)[i] == CanonItems(ys)[i];
          CanonSame(xs[i], ys[i]);
        }
      case (Obj(ms), Obj(ns)) =>
        SameLength(ms, ns);
        forall x ensures x in CanonMembers(ms) <==> x in CanonMembers(ns) {
          InSorted(CanonMembers(ms), x);
          InSorted(CanonMembers(ns), x);
        }
        forall m | m in ms ensures FoundIn(m, ns) {
          InCanonMembers(ms, Member(m.name, Canon(m.value)));
          InCanonMembers(ns, Member(m.name, Canon(m.value)));
          var n :| n in ns && Member(m.name, Canon(m.value)) == Member(n.name, Canon(n.value));
          CanonSame(m.value, n.value);
        }
        forall n | n in ns ensures FoundBy(n, ms) {
          InCanonMembers(ms, Member(n.name, Canon(n.value)));
          InCanonMembers(ns, Member(n.name, Canon(n.value)));
          var m :| m in ms && Member(n.name, Canon(n.value)) == Member(m.name, Canon(m.value));
          CanonSame(m.value, n.value);
        }
      case _ =>
    }
  }

  lemma {:induction false} SameLength(ms: seq<Member>, ns: seq<Member>)
    requires SortBy(CanonMembers(ms), ByName) == SortBy(CanonMembers(ns), ByName)
    ensures |ms| == |ns|
  {
    CanonMembersAt(ms);
    CanonMembersAt(ns);
    SortByCorrect(CanonMembers(ms), ByName);
    SortByCorrect(CanonMembers(ns), ByName);
  }

  lemma InSorted(members: seq<Member>, x: Member)
    ensures x in SortBy(members, ByName) <==> x in members
  {
    SortByCorrect(members, ByName);
    assert x in multiset(SortBy(members, ByName)) <==> x in multiset(members);
  }

  /** Two values without repeated member names have the same canonical text exactly when they differ only in
      member order. */
  lemma JcsIdentifies(v: Json, w: Json)
    requires NumberFree(v) && NumberFree(w)
    requires NoDuplicates(v) && NoDuplicates(w)
    ensures Jcs(v) == Jcs(w) <==> SameUpToOrder(v, w)
  {
    JcsIsCanon(v, w);
    if SameUpToOrder(v, w) { SameCanon(v, w); }
    if Canon(v) == Canon(w) { CanonSame(v, w); }
  }

  /** The canonical text identifies the canonical form. */
  lemma JcsIsCanon(v: Json, w: Json)
    requires NumberFree(v) && NumberFree(w)
    ensures Jcs(v) == Jcs(w) <==> Canon(v) == Canon(w)
  {
    CanonNumberFree(v);
    CanonNumberFree(w);
    assert Jcs(v) + "" == Jcs(v) && Jcs(w) + "" == Jcs(w);
    ReadPrint(Canon(v), "");
    ReadPrint(Canon(w), "");
  }

  /** The canonical form of an object holds the canonical forms of its members, in the order of the UTF-16
      code units of their names. */
  lemma CanonSorted(members: seq<Member>)
    ensures var ms := Canon(Obj(members)).members;
            && multiset(ms) == multiset(seq(|members|, i requires 0 <= i < |members| =>
                 Member(members[i].name, Canon(members[i].value))))
            && forall i, j | 0 <= i < j < |ms| :: AtMost(CodeUnits(ms[i].name), CodeUnits(ms[j].name))
  {
    CanonMembersAre(members);
    var ms := Canon(Obj(members)).members;
    SortByCorrect(CanonMembers(members), ByName);
    forall i, j | 0 <= i < j < |ms| ensures AtMost(CodeUnits(ms[i].name), CodeUnits(ms[j].name)) {
      assert AtMost(ByName(ms[i]), ByName(ms[j]));
    }
  }

  lemma {:induction false} CanonMembersAre(members: seq<Member>)
    ensures CanonMembers(members) ==
            seq(|members|, i requires 0 <= i < |members| => Member(members[i].name, Canon(members[i].value)))
  {
    if members != [] { CanonMembersAre(members[1..]); }
  }

  /** With a repeated name the order of its members shows, since sorting by name keeps it. */
  lemma RepeatedNamesShowOrder()
    ensures var v, w := Obj([Member("a", Null), Member("a", Bool(true))]), Obj([Member("a", Bool(true)), Member("a", Null)]);
            SameUpToOrder(v, w) && Jcs(v) != Jcs(w)
  {
    var m, n := Member("a", Null), Member("a", Bool(true));
    var v, w := Obj([m, n]), Obj([n, m]);
    assert SameUpToOrder(v, w) by {
      assert SameUpToOrder(m.value, m.value) && SameUpToOrder(n.value, n.value);
      assert m in [n, m] && n in [n, m] && m in [m, n] && n in [m, n];
      assert FoundIn(m, [n, m]) && FoundIn(n, [n, m]) && FoundBy(m, [m, n]) && FoundBy(n, [m, n]);
    }
    assert Jcs(v) != Jcs(w) by {
      CanonOfTwins(m, n);
      CanonOfTwins(n, m);
      assert [m, n][0] != [n, m][0];
      JcsIsCanon(v, w);
    }
  }

  lemma CanonOfTwins(m: Member, n: Member)
    requires m.name == n.name && Canon(m.value) == m.value && Canon(n.value) == n.value
    ensures Canon(Obj([m, n])) == Obj([m, n])
  {
    AtMostReflexive(ByName(m));
    assert [m, n][1..] == [n] && [n][1..] == [];
    assert CanonMembers([n]) == [n];
    assert CanonMembers([m, n]) == [m] + CanonMembers([n]);
    assert SortBy([n], ByName) == [n];
  }

  lemma {:induction false} CanonNumberFree(v: Json)
    requires NumberFree(v)
    ensures NumberFree(Canon(v))
    decreases v, 0
  {
    match v {
      case Arr(items) => CanonItemsNumberFree(items);
      case Obj(members) =>
        CanonMembersNumberFree(members);
        var canon := CanonMembers(members);
        SortByCorrect(canon, ByName);
        forall m | m in SortBy(canon, ByName) ensures m in canon {
          assert m in multiset(SortBy(canon, ByName));
        }
      case _ =>
    }
  }

  lemma {:induction false} CanonItemsNumberFree(items: seq<Json>)
    requires forall i | i in items :: NumberFree(i)
    ensures forall i | i in CanonItems(items) :: NumberFree(i)
    decreases items
  {
    if items != [] {
      CanonNumberFree(items[0]);
      CanonItemsNumberFree(items[1..]);
    }
  }

  lemma {:induction false} CanonMembersNumberFree(members: seq<Member>)
    requires forall m | m in members :: NumberFree(m.value)
    ensures forall m | m in CanonMembers(members) :: NumberFree(m.value)
    decreases members
  {
    if members != [] {
      CanonNumberFree(members[0].value);
      CanonMembersNumberFree(members[1..]);
    }
  }
}
