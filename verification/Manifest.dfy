/** Preparing a permission manifest: validation, canonical order, canonical text and fingerprint
    (permission_manifest.go). */
module Manifest {
  import opened Text
  import opened Permission
  import opened Json

  datatype Declaration = Declaration(resource: string, action: string, name: string, description: Option<string>) {
    function Key(): string {
      resource + ":" + action
    }
  }

  datatype Prepared = Prepared(
    mode: string, manifestId: string, revision: string, fingerprint: string, permissions: seq<Declaration>)

  datatype ManifestFault =
    | BadMode
    | BadManifestId
    | BadRevision
    | BadPermissions
    | BadKey
    | BadText(field: string)
    | NotNormalized(field: string)
    | DuplicateKey

  // ----- The canonical text

  /** A builder whose text only grows, as strings.Builder. */
  class Builder {
    var text: string

    constructor ()
      ensures text == ""
    {
      text := "";
    }

    method Write(s: string)
      modifies this
      ensures text == old(text) + s
    {
      text := text + s;
    }

    /** One character as appendJCSString writes it. */
    method WriteEscape(r: char)
      modifies this
      ensures text == old(text) + Escape(r)
    {
      match r {
        case '"' => Write("\\\"");
        case '\\' => Write("\\\\");
        case '\U{8}' => Write("\\b");
        case '\U{c}' => Write("\\f");
        case '\n' => Write("\\n");
        case '\r' => Write("\\r");
        case '\t' => Write("\\t");
        case _ =>
          if r <= '\U{1f}' {
            Write("\\u");
            Write("00" + [HexDigit(r as int / 16), HexDigit(r as int % 16)]);
          } else {
            Write([r]);
          }
      }
    }

    /** appendJCSString: the value between quotes. */
    method AppendJcsString(value: string)
      modifies this
      ensures text == old(text) + Quoted(value)
    {
      Write("\"");
      ghost var before := text;
      assert EscapeAll(value[..0]) == "";
      for i := 0 to |value|
        invariant text == before + EscapeAll(value[..i])
      {
        WriteEscape(value[i]);
        EscapeAllAppend(value[..i], value[i]);
        Append2(before, EscapeAll(value[..i]), Escape(value[i]));
        assert value[..i + 1] == value[..i] + [value[i]];
      }
      assert value[..|value|] == value;
      Write("\"");
      Append3(old(text), "\"", EscapeAll(value), "\"");
    }
  }

  /** A declaration as a JSON object, members in the order of the struct. */
  function DeclarationJson(d: Declaration): Json {
    Obj([
      Member("resource", Str(d.resource)),
      Member("action", Str(d.action)),
      Member("name", Str(d.name)),
      Member("description", if d.description.None? then Null else Str(d.description.value))])
  }

  function DeclarationsJson(ds: seq<Declaration>): seq<Json> {
    if ds == [] then [] else [DeclarationJson(ds[0])] + DeclarationsJson(ds[1..])
  }

  function ManifestJson(ds: seq<Declaration>): Json {
    Obj([Member("permissions", Arr(DeclarationsJson(ds)))])
  }

  function CanonicalDeclarationJson(d: Declaration): Json {
    Obj([
      Member("action", Str(d.action)),
      Member("description", if d.description.None? then Null else Str(d.description.value)),
      Member("name", Str(d.name)),
      Member("resource", Str(d.resource))])
  }

  function CanonicalDeclarationsJson(ds: seq<Declaration>): seq<Json> {
    if ds == [] then [] else [CanonicalDeclarationJson(ds[0])] + CanonicalDeclarationsJson(ds[1..])
  }

  lemma FirstLetterDecides(m: Member, n: Member)
    requires m.name != "" && n.name != "" && m.name[0] < n.name[0] < '\U{80}'
    ensures Less(ByName(m), ByName(n))
  {
  }

  lemma CanonMembersOfFour(r: Member, a: Member, n: Member, x: Member)
    requires Canon(r.value) == r.value && Canon(a.value) == a.value
    requires Canon(n.value) == n.value && Canon(x.value) == x.value
    ensures CanonMembers([r, a, n, x]) == [r, a, n, x]
  {
    assert [r, a, n, x][1..] == [a, n, x] && [a, n, x][1..] == [n, x] && [n, x][1..] == [x];
    assert CanonMembers([x]) == [x];
    assert CanonMembers([n, x]) == [n] + CanonMembers([x]);
    assert CanonMembers([a, n, x]) == [a] + CanonMembers([n, x]);
  }

  lemma CanonFour(r: Member, a: Member, n: Member, x: Member)
    requires Less(ByName(a), ByName(x)) && Less(ByName(x), ByName(n)) && Less(ByName(n), ByName(r))
    requires CanonMembers([r, a, n, x]) == [r, a, n, x]
    ensures Canon(Obj([r, a, n, x])) == Obj([a, x, n, r])
  {
    SortYieldsFour(r, a, n, x, ByName);
  }

  /** Sorting by name turns struct order into action, description, name, resource. */
  lemma CanonDeclaration(d: Declaration)
    ensures Canon(DeclarationJson(d)) == CanonicalDeclarationJson(d)
  {
    var ms := DeclarationJson(d).members;
    FirstLetterDecides(ms[1], ms[3]);
    FirstLetterDecides(ms[3], ms[2]);
    FirstLetterDecides(ms[2], ms[0]);
    CanonMembersOfFour(ms[0], ms[1], ms[2], ms[3]);
    CanonFour(ms[0], ms[1], ms[2], ms[3]);
  }

  lemma {:induction false} CanonDeclarations(ds: seq<Declaration>)
    ensures CanonItems(DeclarationsJson(ds)) == CanonicalDeclarationsJson(ds)
  {
    if ds != [] {
      CanonDeclaration(ds[0]);
      CanonDeclarations(ds[1..]);
      assert DeclarationsJson(ds)[1..] == DeclarationsJson(ds[1..]);
    }
  }

  lemma {:induction false} CanonManifest(ds: seq<Declaration>)
    ensures Canon(ManifestJson(ds)) == Obj([Member("permissions", Arr(CanonicalDeclarationsJson(ds)))])
  {
    CanonDeclarations(ds);
    var m := Member("permissions", Arr(DeclarationsJson(ds)));
    var m' := Member("permissions", Arr(CanonicalDeclarationsJson(ds)));
    assert Canon(m.value) == m'.value;
    assert CanonMembers([m]) == [m'] + CanonMembers([]);
    assert SortBy([m'], ByName) == Insert(m', SortBy([], ByName), ByName);
  }

  lemma PrintSingle(m: Member)
    requires Plain(m.name)
    ensures Print(Obj([m])) == "{" + (Key(m.name) + Print(m.value)) + "}"
  {
    PlainQuoted(m.name);
    assert PrintMembers([m]) == PrintMember(m);
  }

  lemma PrintFour(a: Member, b: Member, c: Member, d: Member)
    ensures Print(Obj([a, b, c, d])) ==
            "{" + (PrintMember(a) + "," + (PrintMember(b) + "," + (PrintMember(c) + "," + PrintMember(d)))) + "}"
  {
    assert [a, b, c, d][1..] == [b, c, d] && [b, c, d][1..] == [c, d] && [c, d][1..] == [d];
    assert PrintMembers([d]) == PrintMember(d);
    assert PrintMembers([c, d]) == PrintMember(c) + "," + PrintMembers([d]);
    assert PrintMembers([b, c, d]) == PrintMember(b) + "," + PrintMembers([c, d]);
    RegroupCommas(PrintMember(a), PrintMember(b), PrintMember(c), PrintMember(d));
  }

  lemma RegroupCommas(a: string, b: string, c: string, d: string)
    ensures (a + "," + (b + "," + (c + "," + d))) == a + "," + (b + "," + (c + "," + d))
  {
  }

  lemma PrintPlainMember(m: Member)
    requires Plain(m.name)
    ensures PrintMember(m) == Key(m.name) + Print(m.value)
  {
    PlainQuoted(m.name);
  }

  lemma PrintFourPlain(a: Member, b: Member, c: Member, d: Member)
    requires Plain(a.name) && Plain(b.name) && Plain(c.name) && Plain(d.name)
    ensures Print(Obj([a, b, c, d])) ==
            "{" + (Key(a.name) + Print(a.value) + "," + (Key(b.name) + Print(b.value) + ","
            + (Key(c.name) + Print(c.value) + "," + (Key(d.name) + Print(d.value))))) + "}"
  {
    PrintFour(a, b, c, d);
    PrintPlainMember(a);
    PrintPlainMember(b);
    PrintPlainMember(c);
    PrintPlainMember(d);
  }

  /** A member's name and colon, for names without escapes. */
  function Key(name: string): string {
    "\"" + name + "\"" + ":"
  }

  lemma AssembleFour(k1: string, v1: string, k2: string, v2: string, k3: string, v3: string, k4: string, v4: string,
      open: string, comma: string, close: string)
    ensures open + (k1 + v1 + comma + (k2 + v2 + comma + (k3 + v3 + comma + (k4 + v4)))) + close
         == (open + k1) + v1 + (comma + k2) + v2 + (comma + k3) + v3 + (comma + k4) + v4 + close
  {
    var x4 := k4 + v4;
    var x3 := k3 + v3 + comma + x4;
    var x2 := k2 + v2 + comma + x3;
    assert open + (k1 + v1 + comma + x2) == (open + k1) + v1 + comma + x2;
    assert comma + x2 == (comma + k2) + v2 + comma + x3;
    assert comma + x3 == (comma + k3) + v3 + comma + x4;
    assert comma + x4 == (comma + k4) + v4;
  }

  lemma DeclarationKeys()
    ensures "{\"action\":" == "{" + Key("action")
    ensures ",\"description\":" == "," + Key("description")
    ensures ",\"name\":" == "," + Key("name")
    ensures ",\"resource\":" == "," + Key("resource")
    ensures Plain("action") && Plain("description") && Plain("name") && Plain("resource")
  {
  }

  /** The writes of canonicalDeclaration, around the literal text between the values. */
  method WriteDeclaration(b: Builder, d: Declaration, t1: string, t2: string, t3: string, t4: string)
    modifies b
    ensures b.text == old(b.text) + t1 + Quoted(d.action)
                      + t2 + (if d.description.None? then "null" else Quoted(d.description.value))
                      + t3 + Quoted(d.name) + t4 + Quoted(d.resource) + "}"
  {
    b.Write(t1);
    b.AppendJcsString(d.action);
    b.Write(t2);
    if d.description.None? {
      b.Write("null");
    } else {
      b.AppendJcsString(d.description.value);
    }
    b.Write(t3);
    b.AppendJcsString(d.name);
    b.Write(t4);
    b.AppendJcsString(d.resource);
    b.Write("}");
  }

  /** canonicalDeclaration prints the JCS form of the declaration's JSON object. */
  method CanonicalDeclaration(d: Declaration) returns (text: string)
    ensures text == Jcs(DeclarationJson(d))
  {
    var b := new Builder();
    WriteDeclaration(b, d, "{\"action\":", ",\"description\":", ",\"name\":", ",\"resource\":");
    text := b.text;
    CanonDeclaration(d);
    DeclarationKeys();
    DeclarationText(d, "{\"action\":", ",\"description\":", ",\"name\":", ",\"resource\":");
  }

  lemma DeclarationText(d: Declaration, t1: string, t2: string, t3: string, t4: string)
    requires t1 == "{" + Key("action") && t2 == "," + Key("description")
    requires t3 == "," + Key("name") && t4 == "," + Key("resource")
    ensures "" + t1 + Quoted(d.action)
            + t2 + (if d.description.None? then "null" else Quoted(d.description.value))
            + t3 + Quoted(d.name) + t4 + Quoted(d.resource) + "}" == Print(CanonicalDeclarationJson(d))
  {
    var ms := CanonicalDeclarationJson(d).members;
    DeclarationKeys();
    PrintFourPlain(ms[0], ms[1], ms[2], ms[3]);
    AssembleFour(Key("action"), Quoted(d.action), Key("description"), Print(ms[1].value),
      Key("name"), Quoted(d.name), Key("resource"), Quoted(d.resource), "{", ",", "}");
    assert "" + t1 == t1;
  }

  /** The texts of the declarations, a comma before all but the first. */
  ghost function ItemsText(ds: seq<Declaration>): string {
    if ds == [] then ""
    else
      var n := |ds| - 1;
      ItemsText(ds[..n]) + (if n > 0 then "," else "") + Jcs(DeclarationJson(ds[n]))
  }

  lemma PrintItemsAppend(items: seq<Json>, item: Json)
    ensures PrintItems(items + [item]) == PrintItems(items) + (if items == [] then "" else ",") + Print(item)
  {
    if |items| <= 1 {
      assert (items + [item])[|items|..] == [item];
    } else {
      PrintItemsAppend(items[1..], item);
      assert (items + [item])[1..] == items[1..] + [item];
      CommaStep(Print(items[0]), PrintItems(items[1..]), ",", Print(item));
    }
  }

  lemma CommaStep(a: string, b: string, comma: string, c: string)
    ensures a + "," + (b + comma + c) == (a + "," + b) + comma + c
  {
  }

  lemma CanonicalAppend(ds: seq<Declaration>, d: Declaration)
    ensures CanonicalDeclarationsJson(ds + [d]) == CanonicalDeclarationsJson(ds) + [CanonicalDeclarationJson(d)]
  {
    if ds == [] {
      assert [d][1..] == [];
      assert CanonicalDeclarationsJson([d]) == [CanonicalDeclarationJson(d)] + CanonicalDeclarationsJson([]);
    } else {
      CanonicalAppend(ds[1..], d);
      assert (ds + [d])[1..] == ds[1..] + [d];
    }
  }

  lemma {:induction false} ItemsTextPrints(ds: seq<Declaration>)
    ensures ItemsText(ds) == PrintItems(CanonicalDeclarationsJson(ds))
    ensures ds != [] <==> CanonicalDeclarationsJson(ds) != []
  {
    if ds != [] {
      var n := |ds| - 1;
      ItemsTextPrints(ds[..n]);
      CanonicalSplit(ds);
      PrintItemsAppend(CanonicalDeclarationsJson(ds[..n]), CanonicalDeclarationJson(ds[n]));
      CanonDeclaration(ds[n]);
    }
  }

  lemma {:induction false} CanonicalSplit(ds: seq<Declaration>)
    requires ds != []
    ensures var n := |ds| - 1;
            CanonicalDeclarationsJson(ds) == CanonicalDeclarationsJson(ds[..n]) + [CanonicalDeclarationJson(ds[n])]
  {
    var n := |ds| - 1;
    CanonicalAppend(ds[..n], ds[n]);
    assert ds == ds[..n] + [ds[n]];
  }

  lemma ItemsTextStep(ds: seq<Declaration>, i: nat)
    requires i < |ds|
    ensures ItemsText(ds[..i + 1]) ==
            ItemsText(ds[..i]) + (if i > 0 then "," else "") + Jcs(DeclarationJson(ds[i]))
  {
    assert ds[..i + 1][..i] == ds[..i];
  }

  /** The loop of canonicalManifest. */
  method WriteDeclarations(b: Builder, permissions: seq<Declaration>)
    modifies b
    ensures b.text == old(b.text) + ItemsText(permissions)
  {
    ghost var before := b.text;
    for i := 0 to |permissions|
      invariant b.text == before + ItemsText(permissions[..i])
    {
      ghost var comma := if i > 0 then "," else "";
      if i > 0 {
        b.Write(",");
      }
      var declaration := CanonicalDeclaration(permissions[i]);
      b.Write(declaration);
      ItemsTextStep(permissions, i);
      CommaAppend(before, ItemsText(permissions[..i]), comma, declaration);
    }
    assert permissions[..|permissions|] == permissions;
  }

  lemma CommaAppend(a: string, b: string, comma: string, c: string)
    ensures a + (b + comma + c) == a + b + comma + c
    ensures comma == "" ==> a + (b + comma + c) == a + b + c
  {
  }

  /** canonicalManifest prints the JCS form of the declaration list. */
  method CanonicalManifest(permissions: seq<Declaration>) returns (text: string)
    ensures text == Jcs(ManifestJson(permissions))
  {
    var b := new Builder();
    b.Write("{\"permissions\":[");
    WriteDeclarations(b, permissions);
    b.Write("]}");
    text := b.text;
    ManifestText(permissions);
  }

  lemma ManifestText(ds: seq<Declaration>)
    ensures Jcs(ManifestJson(ds)) == "" + "{\"permissions\":[" + ItemsText(ds) + "]}"
  {
    CanonManifest(ds);
    ItemsTextPrints(ds);
    PermissionsName();
    PrintSingle(Member("permissions", Arr(CanonicalDeclarationsJson(ds))));
    Enclose("{", Key("permissions"), "[", ItemsText(ds), "]", "}");
  }

  lemma PermissionsName()
    ensures Plain("permissions")
    ensures "" + "{\"permissions\":[" == "{" + Key("permissions") + "["
    ensures "]}" == "]" + "}"
  {
  }

  lemma Enclose(a: string, b: string, c: string, x: string, d: string, e: string)
    ensures a + (b + (c + x + d)) + e == (a + b + c) + x + (d + e)
  {
  }

  // ----- Reading the canonical text back

  function Lookup(members: seq<Member>, name: string): Option<Json> {
    if members == [] then None
    else if members[0].name == name then Some(members[0].value)
    else Lookup(members[1..], name)
  }

  function DeclarationOf(v: Json): Option<Declaration> {
    if !v.Obj? then None
    else
      match (Lookup(v.members, "resource"), Lookup(v.members, "action"),
             Lookup(v.members, "name"), Lookup(v.members, "description"))
      case (Some(Str(r)), Some(Str(a)), Some(Str(n)), Some(Null)) => Some(Declaration(r, a, n, None))
      case (Some(Str(r)), Some(Str(a)), Some(Str(n)), Some(Str(x))) => Some(Declaration(r, a, n, Some(x)))
      case _ => None
  }

  function DeclarationsOf(items: seq<Json>): Option<seq<Declaration>> {
    if items == [] then Some([])
    else
      match (DeclarationOf(items[0]), DeclarationsOf(items[1..]))
      case (Some(d), Some(ds)) => Some([d] + ds)
      case _ => None
  }

  /** The declarations that a whole text holds, read as JSON. */
  function ReadManifest(text: string): Option<seq<Declaration>> {
    match ReadValue(text)
    case Read(Obj(members), "") =>
      (match Lookup(members, "permissions")
       case Some(Arr(items)) => DeclarationsOf(items)
       case _ => None)
    case _ => None
  }

  lemma LookupOfFour(a: Member, b: Member, c: Member, d: Member)
    requires a.name != b.name && a.name != c.name && a.name != d.name
    requires b.name != c.name && b.name != d.name && c.name != d.name
    ensures Lookup([a, b, c, d], a.name) == Some(a.value)
    ensures Lookup([a, b, c, d], b.name) == Some(b.value)
    ensures Lookup([a, b, c, d], c.name) == Some(c.value)
    ensures Lookup([a, b, c, d], d.name) == Some(d.value)
  {
    var ms := [a, b, c, d];
    assert ms[1..] == [b, c, d] && ms[1..][1..] == [c, d] && ms[1..][1..][1..] == [d];
    assert Lookup([d], d.name) == Some(d.value);
    assert Lookup([c, d], d.name) == Lookup([d], d.name) && Lookup([c, d], c.name) == Some(c.value);
    assert Lookup([b, c, d], d.name) == Lookup([c, d], d.name) && Lookup([b, c, d], c.name) == Lookup([c, d], c.name);
  }

  lemma DeclarationBack(d: Declaration)
    ensures DeclarationOf(CanonicalDeclarationJson(d)) == Some(d)
    ensures NumberFree(CanonicalDeclarationJson(d))
  {
    var ms := CanonicalDeclarationJson(d).members;
    LookupOfFour(ms[0], ms[1], ms[2], ms[3]);
  }

  lemma {:induction false} DeclarationsBack(ds: seq<Declaration>)
    ensures DeclarationsOf(CanonicalDeclarationsJson(ds)) == Some(ds)
    ensures forall v | v in CanonicalDeclarationsJson(ds) :: NumberFree(v)
  {
    if ds != [] {
      DeclarationBack(ds[0]);
      DeclarationsBack(ds[1..]);
      assert CanonicalDeclarationsJson(ds)[1..] == CanonicalDeclarationsJson(ds[1..]);
      assert ds == [ds[0]] + ds[1..];
    }
  }

  /** The canonical text of any declaration list is JSON from which exactly that list is read. */
  lemma {:induction false} CanonicalTextReadsBack(ds: seq<Declaration>)
    ensures ReadManifest(Jcs(ManifestJson(ds))) == Some(ds)
  {
    CanonManifest(ds);
    DeclarationsBack(ds);
    ReadBack(Arr(CanonicalDeclarationsJson(ds)));
  }

  lemma ReadBack(v: Json)
    requires NumberFree(v)
    ensures ReadValue(Print(Obj([Member("permissions", v)]))) == Read(Obj([Member("permissions", v)]), "")
    ensures Lookup([Member("permissions", v)], "permissions") == Some(v)
  {
    var w := Obj([Member("permissions", v)]);
    assert NumberFree(w);
    ReadPrint(w, "");
    assert Print(w) + "" == Print(w);
  }

  /** So no two lists share a canonical text: not even a null and a string description, or an escaped
      and an unescaped character, can be confused. */
  lemma CanonicalTextIsInjective(ds: seq<Declaration>, es: seq<Declaration>)
    requires Jcs(ManifestJson(ds)) == Jcs(ManifestJson(es))
    ensures ds == es
  {
    CanonicalTextReadsBack(ds);
    CanonicalTextReadsBack(es);
  }

  // ----- Validation

  predicate IsManifestId(s: string) {
    && 1 <= |s| <= 128
    && ('a' <= s[0] <= 'z' || '0' <= s[0] <= '9')
    && forall c | c in s :: 'a' <= c <= 'z' || '0' <= c <= '9' || c in {'.', '_', '-'}
  }

  predicate IsRevision(s: string) {
    && 1 <= |s| <= 128
    && forall c | c in s ::
         || 'A' <= c <= 'Z' || 'a' <= c <= 'z' || '0' <= c <= '9'
         || c in {'.', '_', ':', '@', '/', '+', '~', '-'}
  }

  /** unicode.IsControl. */
  predicate IsControl(c: char) {
    c <= '\U{1f}' || '\U{7f}' <= c <= '\U{9f}'
  }

  /** The length in UTF-16 code units. */
  method Utf16Length(value: string) returns (length: nat)
    ensures length == |CodeUnits(value)|
  {
    length := 0;
    for i := 0 to |value|
      invariant length + |CodeUnits(value[i..])| == |CodeUnits(value)|
    {
      assert value[i..][1..] == value[i + 1..];
      length := length + if value[i] as int < 0x1_0000 then 1 else 2;
    }
  }

  predicate ValidText(value: string, max: nat) {
    value != "" && |CodeUnits(value)| <= max && Trimmed(value) && forall c | c in value :: !IsControl(c)
  }

  method ValidateManifestText(value: string, max: nat) returns (ok: bool)
    ensures ok <==> ValidText(value, max)
  {
    var length := Utf16Length(value);
    if value == "" || length > max || !Trimmed(value) {
      return false;
    }
    for i := 0 to |value|
      invariant forall c | c in value[..i] :: !IsControl(c)
    {
      if IsControl(value[i]) {
        return false;
      }
      assert value[..i + 1] == value[..i] + [value[i]];
    }
    assert value[..|value|] == value;
    return true;
  }

  predicate ValidDeclaration(d: Declaration, nfc: string -> bool) {
    && IsSegment(d.resource) && IsSegment(d.action)
    && ValidText(d.name, 128)
    && (d.description.Some? ==> ValidText(d.description.value, 512))
    && nfc(d.resource) && nfc(d.action) && nfc(d.name)
    && (d.description.Some? ==> nfc(d.description.value))
  }

  const PLAIN_FIELDS := {"resource", "action", "name"}

  function FieldText(d: Declaration, field: string): string {
    if field == "resource" then d.resource else if field == "action" then d.action else d.name
  }

  /** The fault is the first rule that the declaration breaks. Of several plain fields that are not
      normalized any may be named, since the code finds them by ranging over a map. */
  ghost predicate BreaksRule(d: Declaration, nfc: string -> bool, fault: ManifestFault) {
    if !IsSegment(d.resource) || !IsSegment(d.action) then fault == BadKey
    else if !ValidText(d.name, 128) then fault == BadText("name")
    else if d.description.Some? && !ValidText(d.description.value, 512) then fault == BadText("description")
    else if !nfc(d.resource) || !nfc(d.action) || !nfc(d.name) then
      fault.NotNormalized? && fault.field in PLAIN_FIELDS && !nfc(FieldText(d, fault.field))
    else d.description.Some? && !nfc(d.description.value) && fault == NotNormalized("description")
  }

  /** The range over the map of plain fields, in whatever order. */
  method FindNotNormalized(d: Declaration, nfc: string -> bool) returns (found: Option<string>)
    ensures found.None? <==> nfc(d.resource) && nfc(d.action) && nfc(d.name)
    ensures found.Some? ==> found.value in PLAIN_FIELDS && !nfc(FieldText(d, found.value))
  {
    var left := PLAIN_FIELDS;
    while left != {}
      invariant left <= PLAIN_FIELDS
      invariant forall field | field in PLAIN_FIELDS - left :: nfc(FieldText(d, field))
      decreases |left|
    {
      var field :| field in left;
      if !nfc(FieldText(d, field)) {
        return Some(field);
      }
      left := left - {field};
    }
    assert "resource" in PLAIN_FIELDS && "action" in PLAIN_FIELDS && "name" in PLAIN_FIELDS;
    assert nfc(FieldText(d, "resource")) && nfc(FieldText(d, "action")) && nfc(FieldText(d, "name"));
    return None;
  }

  method ValidateManifestDeclaration(d: Declaration, nfc: string -> bool) returns (fault: Option<ManifestFault>)
    ensures fault.None? <==> ValidDeclaration(d, nfc)
    ensures fault.Some? ==> BreaksRule(d, nfc, fault.value)
  {
    if !IsSegment(d.resource) || !IsSegment(d.action) {
      return Some(BadKey);
    }
    var ok := ValidateManifestText(d.name, 128);
    if !ok {
      return Some(BadText("name"));
    }
    if d.description.Some? {
      ok := ValidateManifestText(d.description.value, 512);
      if !ok {
        return Some(BadText("description"));
      }
    }
    var field := FindNotNormalized(d, nfc);
    if field.Some? {
      return Some(NotNormalized(field.value));
    }
    if d.description.Some? && !nfc(d.description.value) {
      return Some(NotNormalized("description"));
    }
    return None;
  }

  /** PermissionDeclarationRevision: the hash of one declaration's canonical text. */
  method PermissionDeclarationRevision(d: Declaration, nfc: string -> bool, hash: string -> string)
    returns (r: Result<string, ManifestFault>)
    ensures r.Ok? <==> ValidDeclaration(d, nfc)
    ensures r.Ok? ==> r.value == hash(Jcs(DeclarationJson(d)))
    ensures r.Err? ==> BreaksRule(d, nfc, r.error)
  {
    var fault := ValidateManifestDeclaration(d, nfc);
    if fault.Some? {
      return Err(fault.value);
    }
    var text := CanonicalDeclaration(d);
    return Ok(hash(text));
  }

  /** With a collision-free hash the revision tells any two declarations apart. */
  lemma RevisionIdentifiesDeclaration(d: Declaration, e: Declaration, hash: string -> string)
    requires forall s, t :: hash(s) == hash(t) ==> s == t
    requires hash(Jcs(DeclarationJson(d))) == hash(Jcs(DeclarationJson(e)))
    ensures d == e
  {
    CanonDeclaration(d);
    CanonDeclaration(e);
    DeclarationBack(d);
    DeclarationBack(e);
    ReadPrint(CanonicalDeclarationJson(d), "");
    ReadPrint(CanonicalDeclarationJson(e), "");
  }

  // ----- Preparing

  const ByKey: Declaration -> string := (d: Declaration) => d.Key()

  /** The declared list is nil, or its declarations. */
  datatype Request = Request(mode: string, manifestId: string, revision: string, permissions: Option<seq<Declaration>>)

  ghost function HeaderFault(q: Request): Option<ManifestFault> {
    if q.mode !in {"validate", "upsert"} then Some(BadMode)
    else if !IsManifestId(q.manifestId) then Some(BadManifestId)
    else if !IsRevision(q.revision) then Some(BadRevision)
    else if q.permissions.None? || |q.permissions.value| > 1000 then Some(BadPermissions)
    else None
  }

  /** When a manifest is accepted. */
  ghost predicate Accepted(q: Request, nfc: string -> bool) {
    && HeaderFault(q) == None
    && (forall d | d in q.permissions.value :: ValidDeclaration(d, nfc))
    && KeysDistinct(q.permissions.value, ByKey)
  }

  /** Declaration `i` is the first invalid one, and the fault is its own. */
  ghost predicate FirstBroken(ds: seq<Declaration>, i: nat, nfc: string -> bool, fault: ManifestFault) {
    i < |ds| && (forall j | 0 <= j < i :: ValidDeclaration(ds[j], nfc)) && BreaksRule(ds[i], nfc, fault)
  }

  /** What an accepted manifest becomes. */
  ghost function Canonical(q: Request, hash: string -> string): Prepared
    requires q.permissions.Some?
  {
    var sorted := SortBy(q.permissions.value, ByKey);
    Prepared(q.mode, q.manifestId, q.revision, hash(Jcs(ManifestJson(sorted))), sorted)
  }

  ghost function RequestOf(mode: string, manifestId: string, revision: string,
      permissions: array?<Declaration>): Request
    reads permissions
  {
    Request(mode, manifestId, revision, if permissions == null then None else Some(permissions[..]))
  }

  /** The comparison of neighbours after sorting finds every repeated key. */
  method HasDuplicateKey(sorted: array<Declaration>) returns (found: bool)
    requires SortedBy(sorted[..], ByKey)
    ensures found <==> !KeysDistinct(sorted[..], ByKey)
  {
    ghost var keys := seq(sorted.Length, i requires 0 <= i < sorted.Length reads sorted => sorted[i].Key());
    assert forall i | 0 <= i < sorted.Length :: ByKey(sorted[..][i]) == keys[i];
    var i := 1;
    while i < sorted.Length
      invariant 1 <= i && (i <= sorted.Length || sorted.Length == 0)
      invariant forall j | 0 < j < i && j < sorted.Length :: keys[j - 1] != keys[j]
    {
      if sorted[i - 1].Key() == sorted[i].Key() {
        assert !KeysDiffer(sorted[..], ByKey, i - 1, i);
        return true;
      }
      i := i + 1;
    }
    forall j | 0 < j < |keys| ensures Less(keys[j - 1], keys[j]) {
      assert AtMost(ByKey(sorted[..][j - 1]), ByKey(sorted[..][j]));
    }
    NeighboursSuffice(keys);
    return false;
  }

  /** The loop over the declarations, which stops at the first invalid one. */
  method ValidateDeclarations(permissions: array<Declaration>, nfc: string -> bool) returns (fault: Option<ManifestFault>)
    ensures fault.None? <==> forall d | d in permissions[..] :: ValidDeclaration(d, nfc)
    ensures fault.Some? ==> exists i: nat :: FirstBroken(permissions[..], i, nfc, fault.value)
  {
    ghost var ds := permissions[..];
    for i := 0 to permissions.Length
      invariant forall j | 0 <= j < i :: ValidDeclaration(ds[j], nfc)
    {
      fault := ValidateManifestDeclaration(permissions[i], nfc);
      if fault.Some? {
        assert ds[i] in ds;
        assert FirstBroken(ds, i, nfc, fault.value);
        return;
      }
    }
    return None;
  }

  /** PreparePermissionManifest. The declared list is copied before it is sorted in place, so the
      caller's array is left alone. */
  method PreparePermissionManifest(mode: string, manifestId: string, revision: string,
      permissions: array?<Declaration>, nfc: string -> bool, hash: string -> string)
    returns (r: Result<Prepared, ManifestFault>)
    ensures r.Ok? <==> Accepted(RequestOf(mode, manifestId, revision, permissions), nfc)
    ensures r.Ok? ==> r.value == Canonical(RequestOf(mode, manifestId, revision, permissions), hash)
    ensures var q := RequestOf(mode, manifestId, revision, permissions);
            r.Err? ==>
              match HeaderFault(q)
              case Some(fault) => r.error == fault
              case None =>
                if forall d | d in q.permissions.value :: ValidDeclaration(d, nfc) then r.error == DuplicateKey
                else exists i: nat :: FirstBroken(q.permissions.value, i, nfc, r.error)
  {
    if mode != "validate" && mode != "upsert" {
      return Err(BadMode);
    }
    if !IsManifestId(manifestId) {
      return Err(BadManifestId);
    }
    if !IsRevision(revision) {
      return Err(BadRevision);
    }
    if permissions == null || permissions.Length > 1000 {
      return Err(BadPermissions);
    }
    var copied := new Declaration[permissions.Length](
      i requires 0 <= i < permissions.Length reads permissions => permissions[i]);
    assert copied[..] == permissions[..];
    var fault := ValidateDeclarations(copied, nfc);
    if fault.Some? {
      return Err(fault.value);
    }
    Sort(copied, ByKey);
    var duplicate := HasDuplicateKey(copied);
    if duplicate {
      if KeysDistinct(permissions[..], ByKey) {
        KeysDistinctPermuted(permissions[..], copied[..], ByKey);
      }
      return Err(DuplicateKey);
    }
    KeysDistinctPermuted(copied[..], permissions[..], ByKey);
    SortByCorrect(permissions[..], ByKey);
    SortedUnique(copied[..], SortBy(permissions[..], ByKey), ByKey);
    var text := CanonicalManifest(copied[..]);
    return Ok(Prepared(mode, manifestId, revision, hash(text), copied[..]));
  }

  // ----- What preparing promises

  /** Valid keys agree only when resource and action agree. */
  lemma KeysIdentify(d: Declaration, e: Declaration, nfc: string -> bool)
    requires ValidDeclaration(d, nfc) && ValidDeclaration(e, nfc)
    ensures d.Key() == e.Key() <==> d.resource == e.resource && d.action == e.action
  {
    ParseInvertsAuthority(PermissionKey(d.resource, d.action));
    ParseInvertsAuthority(PermissionKey(e.resource, e.action));
  }

  /** The prepared list rearranges the declared one, is strictly increasing by resource, colon and action,
      and repeats no (resource, action) pair. */
  lemma PreparedList(q: Request, nfc: string -> bool, hash: string -> string)
    requires Accepted(q, nfc)
    ensures var ds := Canonical(q, hash).permissions;
            && multiset(ds) == multiset(q.permissions.value)
            && (forall i, j | 0 <= i < j < |ds| :: Less(ds[i].resource + ":" + ds[i].action, ds[j].resource + ":" + ds[j].action))
            && (forall i, j | 0 <= i < j < |ds| :: (ds[i].resource, ds[i].action) != (ds[j].resource, ds[j].action))
  {
    var ds := q.permissions.value;
    var sorted := SortBy(ds, ByKey);
    SortByCorrect(ds, ByKey);
    KeysDistinctPermuted(ds, sorted, ByKey);
    forall i, j | 0 <= i < j < |sorted| ensures Less(sorted[i].Key(), sorted[j].Key()) {
      assert AtMost(ByKey(sorted[i]), ByKey(sorted[j])) && KeysDiffer(sorted, ByKey, i, j);
    }
    forall i, j | 0 <= i < j < |sorted|
      ensures (sorted[i].resource, sorted[i].action) != (sorted[j].resource, sorted[j].action)
    {
      assert Less(sorted[i].Key(), sorted[j].Key());
    }
  }

  /** Order does not matter: rearranged requests are accepted or rejected together, and become the same
      prepared manifest with the same fingerprint. */
  lemma {:induction false} PreparingIsPermutationInvariant(q: Request, p: Request, nfc: string -> bool,
      hash: string -> string)
    requires q.permissions.Some? && p.permissions.Some?
    requires multiset(q.permissions.value) == multiset(p.permissions.value)
    requires p == q.(permissions := p.permissions)
    ensures Accepted(q, nfc) <==> Accepted(p, nfc)
    ensures Accepted(q, nfc) ==> Canonical(q, hash) == Canonical(p, hash)
  {
    if Accepted(q, nfc) { AcceptedPermuted(q, p, nfc); }
    if Accepted(p, nfc) { AcceptedPermuted(p, q, nfc); }
    if Accepted(q, nfc) {
      var ds, es := q.permissions.value, p.permissions.value;
      SortByCorrect(ds, ByKey);
      SortByCorrect(es, ByKey);
      KeysDistinctPermuted(ds, SortBy(ds, ByKey), ByKey);
      SortedUnique(SortBy(ds, ByKey), SortBy(es, ByKey), ByKey);
    }
  }

  lemma AcceptedPermuted(q: Request, p: Request, nfc: string -> bool)
    requires q.permissions.Some? && p.permissions.Some?
    requires multiset(q.permissions.value) == multiset(p.permissions.value)
    requires p == q.(permissions := p.permissions)
    requires Accepted(q, nfc)
    ensures Accepted(p, nfc)
  {
    var ds, es := q.permissions.value, p.permissions.value;
    SameSize(ds, es);
    KeysDistinctPermuted(ds, es, ByKey);
    forall d | d in es ensures ValidDeclaration(d, nfc) {
      assert d in multiset(ds);
    }
  }

  /** With a collision-free hash, the fingerprint identifies the set of declarations and nothing less:
      equal fingerprints mean the same declarations, whatever order they were declared in. */
  lemma {:induction false} FingerprintIdentifiesDeclarations(q: Request, p: Request,
      nfc: string -> bool, hash: string -> string)
    requires Accepted(q, nfc) && Accepted(p, nfc)
    requires forall s, t :: hash(s) == hash(t) ==> s == t
    ensures Canonical(q, hash).fingerprint == Canonical(p, hash).fingerprint <==>
            multiset(q.permissions.value) == multiset(p.permissions.value)
  {
    var ds, es := q.permissions.value, p.permissions.value;
    SortByCorrect(ds, ByKey);
    SortByCorrect(es, ByKey);
    if Canonical(q, hash).fingerprint == Canonical(p, hash).fingerprint {
      CanonicalTextIsInjective(SortBy(ds, ByKey), SortBy(es, ByKey));
    }
    if multiset(ds) == multiset(es) {
      KeysDistinctPermuted(ds, SortBy(ds, ByKey), ByKey);
      SortedUnique(SortBy(ds, ByKey), SortBy(es, ByKey), ByKey);
    }
  }
}
