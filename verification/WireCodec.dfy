/** The request side of cpp/src/wire_codec.cpp: a request printed as one JSON object. */
module WireCodec {
  import opened ByteText
  import opened Wrappers
  import opened JsonGrammar
  import opened JsonReader
  import opened JsonSoundness
  import opened JsonCompleteness
  import opened JsonWriter
  import opened JsonNumber

  // --- Requests ------------------------------------------------------------------

  datatype Request = Request(
    title: Bytes, source: Bytes, severity: int, priority: int, srcTimestamp: int, serviceKey: Option<Bytes>,
    component: Option<Bytes>, group: Option<Bytes>, kind: Option<Bytes>, details: Option<Bytes>)

  const SERVICE_KEY := Ascii("serviceKey")
  const TITLE := Ascii("title")
  const SOURCE := Ascii("source")
  const SEVERITY := Ascii("severity")
  const PRIORITY := Ascii("priority")
  const SRC_TIMESTAMP := Ascii("srcTimestamp")
  const COMPONENT := Ascii("component")
  const GROUP := Ascii("group")
  const KIND := Ascii("type")
  const DETAILS := Ascii("detailsJSON")

  lemma NamesDiffer()
    ensures |SERVICE_KEY| == 10 && |TITLE| == 5 && |SOURCE| == 6 && |SEVERITY| == 8 && |PRIORITY| == 8
    ensures |SRC_TIMESTAMP| == 12 && |COMPONENT| == 9 && |GROUP| == 5 && |KIND| == 4 && |DETAILS| == 11
    ensures TITLE != GROUP && SEVERITY != PRIORITY
  {
    assert TITLE[0] == 't' as int && GROUP[0] == 'g' as int;
    assert SEVERITY[0] == 's' as int && PRIORITY[0] == 'p' as int;
  }

  /** What the payload says, member by member: an absent optional is no member. */
  function OptionalMember(name: Bytes, value: Option<Bytes>): map<Bytes, Value>
  {
    if value.Some? then map[name := Text(value.value)] else map[]
  }

  /** The members every request has. */
  function WithFixedMembers(m: map<Bytes, Value>, r: Request): map<Bytes, Value>
  {
    m[TITLE := Text(r.title)][SOURCE := Text(r.source)][SEVERITY := Number(IntegerDecimal(r.severity))]
     [PRIORITY := Number(IntegerDecimal(r.priority))][SRC_TIMESTAMP := Number(IntegerDecimal(r.srcTimestamp))]
  }

  function WithOptionals(m: map<Bytes, Value>, c: Bytes, vc: Option<Bytes>, g: Bytes, vg: Option<Bytes>,
                         k: Bytes, vk: Option<Bytes>, d: Bytes, vd: Option<Bytes>): map<Bytes, Value>
  {
    m + OptionalMember(c, vc) + OptionalMember(g, vg) + OptionalMember(k, vk) + OptionalMember(d, vd)
  }

  function RequestObject(r: Request, key: Option<Bytes>): map<Bytes, Value>
  {
    WithOptionals(WithFixedMembers(OptionalMember(SERVICE_KEY, key), r),
                  COMPONENT, r.component, GROUP, r.group, KIND, r.kind, DETAILS, r.details)
  }

  // --- The payload as a list of fields ---------------------------------------------

  datatype Field = StringField(name: Bytes, text: Bytes) | NumberField(name: Bytes, number: int)

  function FieldTree(f: Field): (t: Tree)
    ensures TreeOk(t) && Height(t) == 0
  {
    if f.StringField? then StringTree(Spelling(f.text)) else NumberTree(IntegerDecimal(f.number))
  }

  function FieldValue(f: Field): Value
  {
    if f.StringField? then Text(f.text) else Number(IntegerDecimal(f.number))
  }

  function FieldText(f: Field): Bytes
  {
    Escaped(f.name) + [COLON] + (if f.StringField? then Escaped(f.text) else IntegerText(f.number))
  }

  function Joined(fs: seq<Field>): Bytes
  {
    if fs == [] then []
    else if |fs| == 1 then FieldText(fs[0])
    else FieldText(fs[0]) + [COMMA] + Joined(fs[1..])
  }

  /** An object's text up to and including the fields `fs`. */
  function Opened(fs: seq<Field>): Bytes { [OPEN_BRACE] + Joined(fs) }

  function OptionalField(name: Bytes, value: Option<Bytes>): seq<Field>
  {
    if value.Some? then [StringField(name, value.value)] else []
  }

  lemma {:induction false} JoinedSnoc(fs: seq<Field>, f: Field)
    ensures Joined(fs + [f]) == if fs == [] then FieldText(f) else Joined(fs) + [COMMA] + FieldText(f)
  {
    var more := fs + [f];
    if fs == [] {
      assert more == [f];
    } else {
      JoinedSnoc(fs[1..], f);
      assert more[1..] == fs[1..] + [f];
      if |fs| > 1 {
        Concat3(FieldText(fs[0]) + [COMMA], Joined(fs[1..]), [COMMA] + FieldText(f));
        Concat3(Joined(fs[1..]), [COMMA], FieldText(f));
        Concat3(Joined(fs), [COMMA], FieldText(f));
      }
    }
  }

  /** `out` and `first` after the fields `fs`. */
  ghost predicate Wrote(out: Bytes, first: bool, fs: seq<Field>) { out == Opened(fs) && (first <==> fs == []) }

  lemma WroteMore(fs: seq<Field>, f: Field, value: Bytes)
    requires FieldText(f) == Escaped(f.name) + [COLON] + value
    ensures Opened(fs) + (if fs == [] then [] else [COMMA]) + Escaped(f.name) + [COLON] + value == Opened(fs + [f])
  {
    var comma: Bytes := if fs == [] then [] else [COMMA];
    JoinedSnoc(fs, f);
    Concat3(Opened(fs) + comma, Escaped(f.name), [COLON]);
    Concat3(Opened(fs) + comma, Escaped(f.name) + [COLON], value);
    Concat3(Opened(fs), comma, FieldText(f));
    if fs == [] {
      assert Opened(fs) + comma == [OPEN_BRACE];
    } else {
      Concat3([OPEN_BRACE], Joined(fs), comma);
      Concat3([OPEN_BRACE], Joined(fs) + comma, FieldText(f));
    }
  }

  // --- Printing --------------------------------------------------------------------

  method AppendField(out: Bytes, first: bool, name: Bytes) returns (more: Bytes, stillFirst: bool)
    ensures !stillFirst && more == out + (if first then [] else [COMMA]) + Escaped(name) + [COLON]
  {
    more, stillFirst := out, first;
    if first {
      stillFirst := false;
    } else {
      more := more + [COMMA];
    }
    assert more == out + (if first then [] else [COMMA]);
    more := AppendEscaped(more, name);
    more := more + [COLON];
  }

  method AppendString(out: Bytes, first: bool, name: Bytes, value: Bytes, ghost fs: seq<Field>)
    returns (more: Bytes, stillFirst: bool)
    requires Wrote(out, first, fs)
    ensures Wrote(more, stillFirst, fs + [StringField(name, value)])
  {
    more, stillFirst := AppendField(out, first, name);
    more := AppendEscaped(more, value);
    WroteMore(fs, StringField(name, value), Escaped(value));
  }

  method AppendOptionalString(out: Bytes, first: bool, name: Bytes, value: Option<Bytes>, ghost fs: seq<Field>)
    returns (more: Bytes, stillFirst: bool)
    requires Wrote(out, first, fs)
    ensures Wrote(more, stillFirst, fs + OptionalField(name, value))
  {
    if value.None? {
      assert fs + OptionalField(name, value) == fs;
      return out, first;
    }
    more, stillFirst := AppendString(out, first, name, value.value, fs);
  }

  method AppendNumber(out: Bytes, first: bool, name: Bytes, value: int, ghost fs: seq<Field>)
    returns (more: Bytes, stillFirst: bool)
    requires Wrote(out, first, fs)
    ensures Wrote(more, stillFirst, fs + [NumberField(name, value)])
  {
    more, stillFirst := AppendField(out, first, name);
    more := more + IntegerText(value);
    WroteMore(fs, NumberField(name, value), IntegerText(value));
  }

  function WithFixedFields(fs: seq<Field>, r: Request): seq<Field>
  {
    fs + [StringField(TITLE, r.title)] + [StringField(SOURCE, r.source)] + [NumberField(SEVERITY, r.severity)]
    + [NumberField(PRIORITY, r.priority)] + [NumberField(SRC_TIMESTAMP, r.srcTimestamp)]
  }

  function RequestFields(r: Request, key: Option<Bytes>): seq<Field>
  {
    WithFixedFields(OptionalField(SERVICE_KEY, key), r) + OptionalField(COMPONENT, r.component)
    + OptionalField(GROUP, r.group) + OptionalField(KIND, r.kind) + OptionalField(DETAILS, r.details)
  }

  function Payload(r: Request, key: Option<Bytes>): Bytes { Opened(RequestFields(r, key)) + [CLOSE_BRACE] }

  /** Prints a request. Reading the payload back gives the object the request
      stands for, whatever bytes its strings hold. */
  method SerializeRequest(r: Request, key: Option<Bytes>) returns (out: Bytes)
    ensures out == Payload(r, key)
    ensures Parse(out) == Some(Object(RequestObject(r, key)))
  {
    var first := true;
    out := [OPEN_BRACE];
    ghost var fs: seq<Field> := [];
    out, first := AppendOptionalString(out, first, SERVICE_KEY, key, fs);
    assert fs + OptionalField(SERVICE_KEY, key) == OptionalField(SERVICE_KEY, key);
    fs := OptionalField(SERVICE_KEY, key);
    out, first := AppendString(out, first, TITLE, r.title, fs);
    fs := fs + [StringField(TITLE, r.title)];
    out, first := AppendString(out, first, SOURCE, r.source, fs);
    fs := fs + [StringField(SOURCE, r.source)];
    out, first := AppendNumber(out, first, SEVERITY, r.severity, fs);
    fs := fs + [NumberField(SEVERITY, r.severity)];
    out, first := AppendNumber(out, first, PRIORITY, r.priority, fs);
    fs := fs + [NumberField(PRIORITY, r.priority)];
    out, first := AppendNumber(out, first, SRC_TIMESTAMP, r.srcTimestamp, fs);
    fs := fs + [NumberField(SRC_TIMESTAMP, r.srcTimestamp)];
    assert fs == WithFixedFields(OptionalField(SERVICE_KEY, key), r);
    out, first := AppendOptionalString(out, first, COMPONENT, r.component, fs);
    fs := fs + OptionalField(COMPONENT, r.component);
    out, first := AppendOptionalString(out, first, GROUP, r.group, fs);
    fs := fs + OptionalField(GROUP, r.group);
    out, first := AppendOptionalString(out, first, KIND, r.kind, fs);
    fs := fs + OptionalField(KIND, r.kind);
    out, first := AppendOptionalString(out, first, DETAILS, r.details, fs);
    fs := fs + OptionalField(DETAILS, r.details);
    out := out + [CLOSE_BRACE];
    SerializeThenParse(r, key);
  }

  // --- The payload as a tree of the grammar ------------------------------------------

  function FieldName(f: Field): (n: Name)
    ensures NameOk(n)
  {
    Name([], Spelling(f.name), [], [])
  }

  function FieldMembers(fs: seq<Field>): (m: Members)
    requires fs != []
    ensures MembersOk(m) && MembersHeight(m) == 0
  {
    if |fs| == 1 then LastMember(FieldName(fs[0]), FieldTree(fs[0]), [])
    else NextMember(FieldName(fs[0]), FieldTree(fs[0]), [], FieldMembers(fs[1..]))
  }

  function Pair(f: Field): (Bytes, Value) { (f.name, FieldValue(f)) }

  function Pairs(fs: seq<Field>): seq<(Bytes, Value)> { seq(|fs|, i requires 0 <= i < |fs| => Pair(fs[i])) }

  lemma FieldTextIsGrammar(f: Field)
    ensures NameText(FieldName(f)) + TreeText(FieldTree(f)) == FieldText(f)
    ensures Meaning(Spelling(f.name)) == f.name && TreeValue(FieldTree(f)) == FieldValue(f)
  {
    SpellingMeans(f.name);
    assert NameText(FieldName(f)) == Escaped(f.name) + [COLON];
    if f.StringField? { SpellingMeans(f.text); }
  }

  lemma PlainMemberText(n: Name, t: Tree, rest: Members)
    ensures MembersText(NextMember(n, t, [], rest)) == NameText(n) + TreeText(t) + ([COMMA] + MembersText(rest))
    ensures MembersText(LastMember(n, t, [])) == NameText(n) + TreeText(t) + [CLOSE_BRACE]
  {
    assert NameText(n) + TreeText(t) + [] == NameText(n) + TreeText(t);
  }

  lemma {:induction false} FieldsAreGrammar(fs: seq<Field>)
    requires fs != []
    ensures MembersText(FieldMembers(fs)) == Joined(fs) + [CLOSE_BRACE]
  {
    FieldTextIsGrammar(fs[0]);
    if |fs| == 1 {
      PlainMemberText(FieldName(fs[0]), FieldTree(fs[0]), FieldMembers(fs));
    } else {
      FieldsAreGrammar(fs[1..]);
      PlainMemberText(FieldName(fs[0]), FieldTree(fs[0]), FieldMembers(fs[1..]));
      Concat4(FieldText(fs[0]), [COMMA], Joined(fs[1..]), [CLOSE_BRACE]);
    }
  }

  lemma OneBinding(f: Field)
    ensures Bindings(LastMember(FieldName(f), FieldTree(f), [])) == [Pair(f)]
  {
    FieldTextIsGrammar(f);
  }

  lemma MoreBindings(f: Field, rest: Members)
    requires MembersOk(rest)
    ensures Bindings(NextMember(FieldName(f), FieldTree(f), [], rest)) == [Pair(f)] + Bindings(rest)
  {
    FieldTextIsGrammar(f);
  }

  lemma {:induction false} FieldBindings(fs: seq<Field>)
    requires fs != []
    ensures Bindings(FieldMembers(fs)) == Pairs(fs)
  {
    assert Pairs(fs) == [Pair(fs[0])] + Pairs(fs[1..]);
    if |fs| == 1 {
      OneBinding(fs[0]);
    } else {
      FieldBindings(fs[1..]);
      MoreBindings(fs[0], FieldMembers(fs[1..]));
    }
  }

  function FieldDocument(fs: seq<Field>): (d: Document)
    requires fs != []
    ensures DocumentOk(d) && Height(d.tree) == 1
  {
    Document([], ObjectTree(FieldMembers(fs)), [])
  }

  lemma FieldDocumentText(fs: seq<Field>)
    requires fs != []
    ensures DocumentText(FieldDocument(fs)) == Opened(fs) + [CLOSE_BRACE]
  {
    FieldsAreGrammar(fs);
    Concat3([OPEN_BRACE], Joined(fs), [CLOSE_BRACE]);
    var text := [OPEN_BRACE] + MembersText(FieldMembers(fs));
    assert [] + text + [] == text;
  }

  lemma ObjectOfFields(fs: seq<Field>)
    requires fs != []
    ensures Parse(Opened(fs) + [CLOSE_BRACE]) == Some(Object(LastBindings(Pairs(fs))))
  {
    FieldDocumentText(fs);
    FieldBindings(fs);
    ParseComplete(FieldDocument(fs));
  }

  // --- What the bindings of the payload are --------------------------------------------

  lemma LastBindingsSnoc(fs: seq<Field>, f: Field)
    ensures LastBindings(Pairs(fs + [f])) == LastBindings(Pairs(fs))[f.name := FieldValue(f)]
  {
    assert Pairs(fs + [f]) == Pairs(fs) + [Pair(f)];
    LastBindingsExtend(Pairs(fs), f.name, FieldValue(f));
  }

  lemma LastBindingsOptional(fs: seq<Field>, name: Bytes, value: Option<Bytes>)
    ensures LastBindings(Pairs(fs + OptionalField(name, value)))
         == LastBindings(Pairs(fs)) + OptionalMember(name, value)
  {
    if value.Some? {
      LastBindingsSnoc(fs, StringField(name, value.value));
    } else {
      assert fs + OptionalField(name, value) == fs;
    }
  }

  lemma FixedBindings(r: Request, fs: seq<Field>)
    ensures LastBindings(Pairs(WithFixedFields(fs, r))) == WithFixedMembers(LastBindings(Pairs(fs)), r)
  {
    var f1 := fs + [StringField(TITLE, r.title)];
    var f2 := f1 + [StringField(SOURCE, r.source)];
    var f3 := f2 + [NumberField(SEVERITY, r.severity)];
    var f4 := f3 + [NumberField(PRIORITY, r.priority)];
    LastBindingsSnoc(fs, StringField(TITLE, r.title));
    LastBindingsSnoc(f1, StringField(SOURCE, r.source));
    LastBindingsSnoc(f2, NumberField(SEVERITY, r.severity));
    LastBindingsSnoc(f3, NumberField(PRIORITY, r.priority));
    LastBindingsSnoc(f4, NumberField(SRC_TIMESTAMP, r.srcTimestamp));
  }

  lemma PayloadBindings(r: Request, key: Option<Bytes>)
    ensures LastBindings(Pairs(RequestFields(r, key))) == RequestObject(r, key)
  {
    var f0: seq<Field> := [];
    assert Pairs(f0) == [] && LastBindings(Pairs(f0)) == map[];
    LastBindingsOptional(f0, SERVICE_KEY, key);
    var f1 := OptionalField(SERVICE_KEY, key);
    assert f0 + f1 == f1;
    assert map[] + OptionalMember(SERVICE_KEY, key) == OptionalMember(SERVICE_KEY, key);
    FixedBindings(r, f1);
    var f2 := WithFixedFields(f1, r);
    LastBindingsOptional(f2, COMPONENT, r.component);
    var f3 := f2 + OptionalField(COMPONENT, r.component);
    LastBindingsOptional(f3, GROUP, r.group);
    var f4 := f3 + OptionalField(GROUP, r.group);
    LastBindingsOptional(f4, KIND, r.kind);
    LastBindingsOptional(f4 + OptionalField(KIND, r.kind), DETAILS, r.details);
  }

  /** Serialize, then parse: the object the request stands for. */
  lemma SerializeThenParse(r: Request, key: Option<Bytes>)
    ensures Parse(Payload(r, key)) == Some(Object(RequestObject(r, key)))
  {
    ObjectOfFields(RequestFields(r, key));
    PayloadBindings(r, key);
  }

  /** The text of an optional member, if the object has it. */
  function TextOf(m: map<Bytes, Value>, name: Bytes): Option<Bytes>
  {
    if name in m && m[name].Text? then Some(m[name].bytes) else None
  }

  lemma OptionalStep(m: map<Bytes, Value>, name: Bytes, value: Option<Bytes>, n: Bytes)
    requires name !in m
    ensures var m' := m + OptionalMember(name, value);
            TextOf(m', n) == (if n == name then value else TextOf(m, n))
            && (n in m' <==> n in m || (n == name && value.Some?)) && (n in m ==> m'[n] == m[n])
  {
  }

  /** What is under the name `n` once the optional members are added. */
  lemma OptionalsStep(m: map<Bytes, Value>, c: Bytes, vc: Option<Bytes>, g: Bytes, vg: Option<Bytes>,
                      k: Bytes, vk: Option<Bytes>, d: Bytes, vd: Option<Bytes>, n: Bytes)
    requires c != g && c != k && c != d && g != k && g != d && k != d
    requires c !in m && g !in m && k !in m && d !in m
    ensures var m' := WithOptionals(m, c, vc, g, vg, k, vk, d, vd);
      && TextOf(m', n) == (if n == c then vc else if n == g then vg else if n == k then vk else if n == d then vd
                           else TextOf(m, n))
      && (n in m ==> n in m' && m'[n] == m[n])
  {
    var m2 := m + OptionalMember(c, vc);
    var m3 := m2 + OptionalMember(g, vg);
    var m4 := m3 + OptionalMember(k, vk);
    OptionalStep(m, c, vc, n);
    OptionalStep(m2, g, vg, n);
    OptionalStep(m3, k, vk, n);
    OptionalStep(m4, d, vd, n);
  }

  lemma FixedStep(m: map<Bytes, Value>, r: Request)
    requires m.Keys <= {SERVICE_KEY}
    ensures var m' := WithFixedMembers(m, r);
      && m'.Keys == {TITLE, SOURCE, SEVERITY, PRIORITY, SRC_TIMESTAMP} + m.Keys
      && TextOf(m', TITLE) == Some(r.title) && TextOf(m', SOURCE) == Some(r.source)
      && TextOf(m', SERVICE_KEY) == TextOf(m, SERVICE_KEY)
      && m'[SEVERITY] == Number(IntegerDecimal(r.severity)) && m'[PRIORITY] == Number(IntegerDecimal(r.priority))
      && m'[SRC_TIMESTAMP] == Number(IntegerDecimal(r.srcTimestamp))
  {
    NamesDiffer();
  }

  lemma RequestObjectKeys(r: Request, key: Option<Bytes>)
    ensures RequestObject(r, key).Keys
         == {TITLE, SOURCE, SEVERITY, PRIORITY, SRC_TIMESTAMP}
            + OptionalMember(SERVICE_KEY, key).Keys + OptionalMember(COMPONENT, r.component).Keys
            + OptionalMember(GROUP, r.group).Keys + OptionalMember(KIND, r.kind).Keys
            + OptionalMember(DETAILS, r.details).Keys
  {
  }

  lemma OptionalKey(name: Bytes, value: Option<Bytes>, n: Bytes)
    ensures n in OptionalMember(name, value).Keys <==> n == name && value.Some?
  {
  }

  lemma KeyOf(r: Request, key: Option<Bytes>, n: Bytes)
    ensures n in RequestObject(r, key) <==>
              || n == TITLE || n == SOURCE || n == SEVERITY || n == PRIORITY || n == SRC_TIMESTAMP
              || (n == SERVICE_KEY && key.Some?) || (n == COMPONENT && r.component.Some?)
              || (n == GROUP && r.group.Some?) || (n == KIND && r.kind.Some?) || (n == DETAILS && r.details.Some?)
  {
    RequestObjectKeys(r, key);
    OptionalKey(SERVICE_KEY, key, n);
    OptionalKey(COMPONENT, r.component, n);
    OptionalKey(GROUP, r.group, n);
    OptionalKey(KIND, r.kind, n);
    OptionalKey(DETAILS, r.details, n);
  }

  /** The names are exactly those of the present fields. */
  lemma RequestObjectNames(r: Request, key: Option<Bytes>, n: Bytes)
    ensures n in RequestObject(r, key) <==>
              || n == Ascii("title") || n == Ascii("source") || n == Ascii("severity") || n == Ascii("priority")
              || n == Ascii("srcTimestamp") || (n == Ascii("serviceKey") && key.Some?)
              || (n == Ascii("component") && r.component.Some?) || (n == Ascii("group") && r.group.Some?)
              || (n == Ascii("type") && r.kind.Some?) || (n == Ascii("detailsJSON") && r.details.Some?)
  {
    NamesOnTheWire();
    KeyOf(r, key, n);
  }

  lemma NamesOnTheWire()
    ensures SERVICE_KEY == Ascii("serviceKey") && TITLE == Ascii("title") && SOURCE == Ascii("source")
    ensures SEVERITY == Ascii("severity") && PRIORITY == Ascii("priority") && SRC_TIMESTAMP == Ascii("srcTimestamp")
    ensures COMPONENT == Ascii("component") && GROUP == Ascii("group") && KIND == Ascii("type")
    ensures DETAILS == Ascii("detailsJSON")
  {
  }

  lemma RequestObjectText(r: Request, key: Option<Bytes>, n: Bytes)
    ensures var m := RequestObject(r, key);
      && TextOf(m, n) == (if n == COMPONENT then r.component else if n == GROUP then r.group
                          else if n == KIND then r.kind
                          else if n == DETAILS then r.details
                          else TextOf(WithFixedMembers(OptionalMember(SERVICE_KEY, key), r), n))
      && (n in WithFixedMembers(OptionalMember(SERVICE_KEY, key), r) ==>
            n in m && m[n] == WithFixedMembers(OptionalMember(SERVICE_KEY, key), r)[n])
  {
    NamesDiffer();
    var m := WithFixedMembers(OptionalMember(SERVICE_KEY, key), r);
    OptionalsStep(m, COMPONENT, r.component, GROUP, r.group, KIND, r.kind, DETAILS, r.details, n);
  }

  lemma MembersAsGiven(r: Request, key: Option<Bytes>)
    ensures var m := RequestObject(r, key);
      && TextOf(m, TITLE) == Some(r.title) && TextOf(m, SOURCE) == Some(r.source)
      && TextOf(m, SERVICE_KEY) == key && TextOf(m, COMPONENT) == r.component && TextOf(m, GROUP) == r.group
      && TextOf(m, KIND) == r.kind && TextOf(m, DETAILS) == r.details
      && {SEVERITY, PRIORITY, SRC_TIMESTAMP} <= m.Keys
      && m[SEVERITY] == Number(IntegerDecimal(r.severity)) && m[PRIORITY] == Number(IntegerDecimal(r.priority))
      && m[SRC_TIMESTAMP] == Number(IntegerDecimal(r.srcTimestamp))
  {
    NamesDiffer();
    FixedStep(OptionalMember(SERVICE_KEY, key), r);
    RequestObjectText(r, key, TITLE);
    RequestObjectText(r, key, SOURCE);
    RequestObjectText(r, key, SERVICE_KEY);
    RequestObjectText(r, key, COMPONENT);
    RequestObjectText(r, key, GROUP);
    RequestObjectText(r, key, KIND);
    RequestObjectText(r, key, DETAILS);
    RequestObjectText(r, key, SEVERITY);
    RequestObjectText(r, key, PRIORITY);
    RequestObjectText(r, key, SRC_TIMESTAMP);
  }

  ghost predicate HasText(m: map<Bytes, Value>, name: Bytes, value: Bytes) { name in m && m[name] == Text(value) }

  /** Present with that text, or absent when there is none. */
  ghost predicate HasOptional(m: map<Bytes, Value>, name: Bytes, value: Option<Bytes>)
  {
    if value.Some? then HasText(m, name, value.value) else name !in m
  }

  ghost predicate HasInteger(m: map<Bytes, Value>, name: Bytes, n: int)
  {
    name in m && m[name].Number? && DecimalOk(m[name].decimal) && DecimalValue(m[name].decimal) == n as real
  }

  /** Every field reads back under its own name as it was given; an absent one is absent. */
  lemma RequestObjectMembers(r: Request, key: Option<Bytes>)
    ensures var m := RequestObject(r, key);
      && HasText(m, Ascii("title"), r.title) && HasText(m, Ascii("source"), r.source)
      && HasInteger(m, Ascii("severity"), r.severity) && HasInteger(m, Ascii("priority"), r.priority)
      && HasInteger(m, Ascii("srcTimestamp"), r.srcTimestamp) && HasOptional(m, Ascii("serviceKey"), key)
      && HasOptional(m, Ascii("component"), r.component) && HasOptional(m, Ascii("group"), r.group)
      && HasOptional(m, Ascii("type"), r.kind) && HasOptional(m, Ascii("detailsJSON"), r.details)
  {
    NamesOnTheWire();
    NamesDiffer();
    MembersAsGiven(r, key);
    KeyOf(r, key, SERVICE_KEY);
    KeyOf(r, key, COMPONENT);
    KeyOf(r, key, GROUP);
    KeyOf(r, key, KIND);
    KeyOf(r, key, DETAILS);
  }

  /** The integers read back equal as long as a double holds them. */
  lemma RequestIntegersReadBack(r: Request, key: Option<Bytes>, round: Decimal -> real)
    requires RoundsLikeDoubles(round)
    requires -0x20_0000_0000_0000 <= r.severity <= 0x20_0000_0000_0000
    requires -0x20_0000_0000_0000 <= r.priority <= 0x20_0000_0000_0000
    requires -0x20_0000_0000_0000 <= r.srcTimestamp <= 0x20_0000_0000_0000
    ensures var m := RequestObject(r, key);
      && Ascii("severity") in m && AsInt(m[Ascii("severity")], round) == Some(r.severity)
      && Ascii("priority") in m && AsInt(m[Ascii("priority")], round) == Some(r.priority)
      && Ascii("srcTimestamp") in m && AsInt(m[Ascii("srcTimestamp")], round) == Some(r.srcTimestamp)
  {
    NamesOnTheWire();
    MembersAsGiven(r, key);
    IntegersReadBack(IntegerDecimal(r.severity), r.severity, round);
    IntegersReadBack(IntegerDecimal(r.priority), r.priority, round);
    IntegersReadBack(IntegerDecimal(r.srcTimestamp), r.srcTimestamp, round);
  }

  /** Two requests have one payload exactly when they agree on all that is sent. */
  lemma PayloadDeterminesRequest(r: Request, key: Option<Bytes>, r': Request, key': Option<Bytes>)
    ensures Payload(r, key) == Payload(r', key') <==> key == key' && r.(serviceKey := None) == r'.(serviceKey := None)
  {
    if Payload(r, key) == Payload(r', key') {
      SerializeThenParse(r, key);
      SerializeThenParse(r', key');
      MembersAsGiven(r, key);
      MembersAsGiven(r', key');
      IntegerDecimalIsInjective(r.severity, r'.severity);
      IntegerDecimalIsInjective(r.priority, r'.priority);
      IntegerDecimalIsInjective(r.srcTimestamp, r'.srcTimestamp);
    }
  }
}
