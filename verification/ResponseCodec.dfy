/** Response decoding of cpp/src/wire_codec.cpp: which parts of a body decide the result. */
module ResponseCodec {
  import opened ByteText
  import opened Wrappers
  import opened JsonGrammar
  import opened JsonReader
  import opened JsonNumber
  import JsonParser
  import JsonTheorems

  datatype Response = Response(successful: bool, code: int, message: Option<Bytes>, incidentId: Option<Bytes>)

  /** The error for a body that is not a JSON object carries the status, never the body. */
  datatype Decoded = Decoded(response: Response) | NotJson(status: int)

  const SUCCESS := Ascii("success")
  const CODE := Ascii("code")
  const MESSAGE := Ascii("message")
  const DATA := Ascii("data")

  /** Blank by the C locale's white space, which is wider than JSON's. */
  predicate IsBlankBody(body: Bytes)
  {
    forall i | 0 <= i < |body| :: IsBlank(body[i]) || body[i] == 0x0B || body[i] == 0x0C
  }

  predicate Is2xx(status: int) { 200 <= status < 300 }

  /** Conversion of a 64-bit integer to a 32-bit one keeps the low 32 bits. */
  function ToInt32(n: int): (r: int)
    ensures -0x8000_0000 <= r < 0x8000_0000 && (r - n) % 0x1_0000_0000 == 0
    ensures -0x8000_0000 <= n < 0x8000_0000 ==> r == n
  {
    (n + 0x8000_0000) % 0x1_0000_0000 - 0x8000_0000
  }

  function Lookup(m: map<Bytes, Value>, k: Bytes): Option<Value> { if k in m then Some(m[k]) else None }

  function BoolOr(v: Option<Value>, fallback: bool): bool
  {
    if v.Some? && v.value.Bool? then v.value.flag else fallback
  }

  function Int32Or(v: Option<Value>, fallback: int, round: Decimal -> real): int
  {
    if v.Some? && AsInt(v.value, round).Some? then ToInt32(AsInt(v.value, round).value) else fallback
  }

  function TextOrNone(v: Option<Value>): Option<Bytes>
  {
    if v.Some? && v.value.Text? then Some(v.value.bytes) else None
  }

  /** The response a status and the four values of an envelope stand for. */
  function Envelope(status: int, success: Option<Value>, code: Option<Value>, message: Option<Value>,
                    data: Option<Value>, round: Decimal -> real): Response
  {
    Response(BoolOr(success, Is2xx(status)), Int32Or(code, status, round), TextOrNone(message), TextOrNone(data))
  }

  /** What a status and a body decode to. */
  function Decode(status: int, body: Bytes, round: Decimal -> real): Decoded
  {
    if IsBlankBody(body) then Decoded(Envelope(status, None, None, None, None, round))
    else match Parse(body)
      case Some(Object(m)) =>
        Decoded(Envelope(status, Lookup(m, SUCCESS), Lookup(m, CODE), Lookup(m, MESSAGE), Lookup(m, DATA), round))
      case _ => NotJson(status)
  }

  method ParseResponse(status: int, body: Bytes, round: Decimal -> real) returns (r: Decoded)
    ensures r == Decode(status, body, round)
  {
    var response := Response(Is2xx(status), status, None, None);
    if IsBlankBody(body) {
      return Decoded(response);
    }
    var parsed := JsonParser.ParseText(body);
    if parsed.None? || !parsed.value.Object? {
      return NotJson(status);
    }
    var envelope := parsed.value.members;
    if SUCCESS in envelope && envelope[SUCCESS].Bool? {
      response := response.(successful := envelope[SUCCESS].flag);
    }
    if CODE in envelope {
      var value := AsInt(envelope[CODE], round);
      if value.Some? {
        response := response.(code := ToInt32(value.value));
      }
    }
    if MESSAGE in envelope && envelope[MESSAGE].Text? {
      response := response.(message := Some(envelope[MESSAGE].bytes));
    }
    if DATA in envelope && envelope[DATA].Text? {
      response := response.(incidentId := Some(envelope[DATA].bytes));
    }
    r := Decoded(response);
  }

  // --- Only the last binding of four names matters ---------------------------------

  /** The last of the members with the name `k`, as they are written. */
  function LastNamed(bs: seq<(Bytes, Value)>, k: Bytes): Option<Value>
  {
    if k in Names(bs) then Some(LastOf(bs, k)) else None
  }

  /** The members an object document writes, in order. */
  ghost predicate IsObject(d: Document, bs: seq<(Bytes, Value)>)
  {
    && DocumentOk(d) && Height(d.tree) <= MAX_DEPTH
    && (d.tree.EmptyObjectTree? || d.tree.ObjectTree?)
    && bs == if d.tree.ObjectTree? then Bindings(d.tree.members) else []
  }

  lemma ObjectIsNotBlank(d: Document, bs: seq<(Bytes, Value)>)
    requires IsObject(d, bs)
    ensures !IsBlankBody(DocumentText(d))
  {
    var s := DocumentText(d);
    assert s[|d.before|] == TreeText(d.tree)[0] == OPEN_BRACE;
  }

  /** The result is a function of the status and the last members under the four
      names: a missing or wrongly typed one falls back, everything else in the body,
      at any position or nesting, has no say. */
  lemma OnlyFourNamesMatter(status: int, d: Document, bs: seq<(Bytes, Value)>, round: Decimal -> real)
    requires IsObject(d, bs)
    ensures Decode(status, DocumentText(d), round)
         == Decoded(Envelope(status, LastNamed(bs, SUCCESS), LastNamed(bs, CODE), LastNamed(bs, MESSAGE),
                             LastNamed(bs, DATA), round))
  {
    JsonTheorems.ParseOfADocument(d);
    ObjectIsNotBlank(d, bs);
    assert LastBindings([]) == map[];
    assert TreeValue(d.tree) == Object(LastBindings(bs));
  }

  lemma LastNamedSnoc(bs: seq<(Bytes, Value)>, x: (Bytes, Value), k: Bytes)
    ensures LastNamed(bs + [x], k) == if x.0 == k then Some(x.1) else LastNamed(bs, k)
  {
    LastBindingsExtend(bs, x.0, x.1);
    assert LastBindings(bs + [x]).Keys == Names(bs + [x]) && LastBindings(bs).Keys == Names(bs);
    if k in Names(bs + [x]) {
      assert LastBindings(bs + [x])[k] == LastOf(bs + [x], k);
    }
  }

  lemma {:induction false} InsertedMember(a: seq<(Bytes, Value)>, b: seq<(Bytes, Value)>,
                                          other: (Bytes, Value), k: Bytes)
    requires other.0 != k
    ensures LastNamed(a + [other] + b, k) == LastNamed(a + b, k)
    decreases |b|
  {
    LastNamedSnoc(a, other, k);
    if b == [] {
      assert a + [other] + b == a + [other] && a + b == a;
    } else {
      var n := |b| - 1;
      InsertedMember(a, b[..n], other, k);
      assert a + [other] + b == (a + [other] + b[..n]) + [b[n]];
      assert a + b == (a + b[..n]) + [b[n]];
      LastNamedSnoc(a + [other] + b[..n], b[n], k);
      LastNamedSnoc(a + b[..n], b[n], k);
    }
  }

  // --- The fields of the result --------------------------------------------------------

  /** The last member named `name` is `v`. */
  ghost predicate LastIs(bs: seq<(Bytes, Value)>, name: Bytes, v: Value)
  {
    exists i :: 0 <= i < |bs| && bs[i] == (name, v) && forall j | i < j < |bs| :: bs[j].0 != name
  }

  lemma LastNamedIsLast(bs: seq<(Bytes, Value)>, name: Bytes, v: Value)
    ensures LastIs(bs, name, v) <==> LastNamed(bs, name) == Some(v)
  {
    if LastIs(bs, name, v) {
      var i :| 0 <= i < |bs| && bs[i] == (name, v) && forall j | i < j < |bs| :: bs[j].0 != name;
      assert name in Names(bs);
      var k :| 0 <= k < |bs| && bs[k] == (name, LastOf(bs, name)) && forall j | k < j < |bs| :: bs[j].0 != name;
      assert i == k;
    }
  }

  lemma NamesInTheBody()
    ensures SUCCESS == Ascii("success") && CODE == Ascii("code")
    ensures MESSAGE == Ascii("message") && DATA == Ascii("data")
  {
  }

  lemma ObjectBodyEnvelope(status: int, d: Document, bs: seq<(Bytes, Value)>, round: Decimal -> real)
    returns (r: Response)
    requires IsObject(d, bs)
    ensures Decode(status, DocumentText(d), round) == Decoded(r)
    ensures r == Envelope(status, LastNamed(bs, Ascii("success")), LastNamed(bs, Ascii("code")),
                          LastNamed(bs, Ascii("message")), LastNamed(bs, Ascii("data")), round)
  {
    NamesInTheBody();
    OnlyFourNamesMatter(status, d, bs, round);
    r := Decode(status, DocumentText(d), round).response;
  }

  /** The message and the incident id are the texts of the last "message" and "data"
      members, and absent when those are missing or no texts. */
  lemma TextsOfTheResponse(status: int, d: Document, bs: seq<(Bytes, Value)>, round: Decimal -> real, b: Bytes)
    requires IsObject(d, bs)
    ensures var r := Decode(status, DocumentText(d), round);
      && r.Decoded?
      && (r.response.message == Some(b) <==> LastIs(bs, Ascii("message"), Text(b)))
      && (r.response.incidentId == Some(b) <==> LastIs(bs, Ascii("data"), Text(b)))
  {
    var r := ObjectBodyEnvelope(status, d, bs, round);
    LastNamedIsLast(bs, Ascii("message"), Text(b));
    LastNamedIsLast(bs, Ascii("data"), Text(b));
  }

  /** Success is what the last "success" member says if it is a boolean, and otherwise
      what the status says. */
  lemma SuccessOfTheResponse(status: int, d: Document, bs: seq<(Bytes, Value)>, round: Decimal -> real)
    requires IsObject(d, bs)
    ensures var r := Decode(status, DocumentText(d), round);
      && r.Decoded?
      && (LastIs(bs, Ascii("success"), Bool(true)) ==> r.response.successful)
      && (LastIs(bs, Ascii("success"), Bool(false)) ==> !r.response.successful)
      && (!LastIs(bs, Ascii("success"), Bool(true)) && !LastIs(bs, Ascii("success"), Bool(false)) ==>
            (r.response.successful <==> 200 <= status < 300))
  {
    var r := ObjectBodyEnvelope(status, d, bs, round);
    LastNamedIsLast(bs, Ascii("success"), Bool(true));
    LastNamedIsLast(bs, Ascii("success"), Bool(false));
  }

  ghost predicate Denotes(x: Decimal, n: int) { DecimalOk(x) && DecimalValue(x) == n as real }

  /** The code is the last "code" member when that is an integer that fits an int, however
      it is written, and the status when there is none or it is no number. */
  lemma CodeOfTheResponse(status: int, d: Document, bs: seq<(Bytes, Value)>, round: Decimal -> real,
                          x: Decimal, n: int)
    requires IsObject(d, bs) && RoundsLikeDoubles(round)
    ensures var r := Decode(status, DocumentText(d), round);
      && r.Decoded?
      && (LastIs(bs, Ascii("code"), Number(x)) && Denotes(x, n) && -0x8000_0000 <= n < 0x8000_0000 ==>
            r.response.code == n)
      && ((forall y: Decimal :: !LastIs(bs, Ascii("code"), Number(y))) ==> r.response.code == status)
  {
    var r := ObjectBodyEnvelope(status, d, bs, round);
    var last := LastNamed(bs, Ascii("code"));
    LastNamedIsLast(bs, Ascii("code"), Number(x));
    if Denotes(x, n) && -0x8000_0000 <= n < 0x8000_0000 {
      IntegersReadBack(x, n, round);
    }
    if last.Some? && last.value.Number? {
      LastNamedIsLast(bs, Ascii("code"), Number(last.value.decimal));
    }
  }

  /** The code a number stands for: within 64 bits its integer part, of which 32 bits are
      kept; beyond, the status. */
  ghost predicate IsCodeOf(code: int, x: Decimal, status: int, round: Decimal -> real)
  {
    && (-0x8000_0000_0000_0000 as real <= round(x) < 0x8000_0000_0000_0000 as real ==>
          -0x8000_0000 <= code < 0x8000_0000 && (code - Truncate(round(x))) % 0x1_0000_0000 == 0)
    && (round(x) < -0x8000_0000_0000_0000 as real || round(x) > 0x8000_0000_0000_0000 as real ==> code == status)
  }

  lemma CodeOfANumber(x: Decimal, status: int, round: Decimal -> real)
    ensures IsCodeOf(Int32Or(Some(Number(x)), status, round), x, status, round)
  {
  }

  /** Any other number within 64 bits loses its fraction and then all but 32 bits; one
      beyond falls back. */
  lemma OtherCodesOfTheResponse(status: int, d: Document, bs: seq<(Bytes, Value)>, round: Decimal -> real, x: Decimal)
    requires IsObject(d, bs) && LastIs(bs, Ascii("code"), Number(x))
    ensures var r := Decode(status, DocumentText(d), round);
            r.Decoded? && IsCodeOf(r.response.code, x, status, round)
  {
    var r := ObjectBodyEnvelope(status, d, bs, round);
    LastNamedIsLast(bs, Ascii("code"), Number(x));
    CodeOfANumber(x, status, round);
    assert r.code == Int32Or(Some(Number(x)), status, round);
  }

  /** A body is blank when it holds the white space of C and nothing else; then only the
      status speaks. */
  lemma BlankBodies(status: int, body: Bytes, round: Decimal -> real)
    ensures IsBlankBody(body) <==> forall i | 0 <= i < |body| :: body[i] in {0x20, 0x09, 0x0A, 0x0B, 0x0C, 0x0D}
    ensures IsBlankBody(body) ==>
              var r := Decode(status, body, round);
              && r.Decoded? && (r.response.successful <==> 200 <= status < 300) && r.response.code == status
              && r.response.message.None? && r.response.incidentId.None?
  {
    assert forall b: byte :: IsBlank(b) || b == 0x0B || b == 0x0C <==> b in {0x20, 0x09, 0x0A, 0x0B, 0x0C, 0x0D};
    assert forall i | 0 <= i < |body| ::
      IsBlank(body[i]) || body[i] == 0x0B || body[i] == 0x0C <==> body[i] in {0x20, 0x09, 0x0A, 0x0B, 0x0C, 0x0D};
  }

  /** A member under any other name, put anywhere in the object, changes nothing. */
  lemma OtherMembersAreIgnored(status: int, d: Document, e: Document, a: seq<(Bytes, Value)>, b: seq<(Bytes, Value)>,
                               other: (Bytes, Value), round: Decimal -> real)
    requires IsObject(d, a + b) && IsObject(e, a + [other] + b)
    requires other.0 !in {SUCCESS, CODE, MESSAGE, DATA}
    ensures Decode(status, DocumentText(d), round) == Decode(status, DocumentText(e), round)
  {
    OnlyFourNamesMatter(status, d, a + b, round);
    OnlyFourNamesMatter(status, e, a + [other] + b, round);
    InsertedMember(a, b, other, SUCCESS);
    InsertedMember(a, b, other, CODE);
    InsertedMember(a, b, other, MESSAGE);
    InsertedMember(a, b, other, DATA);
  }

  /** A non-blank body is refused exactly when no object document spells it, and then
      nothing of the body is left in the result. */
  lemma RefusedBodiesLookAlike(status: int, body: Bytes, round: Decimal -> real)
    requires !IsBlankBody(body)
    ensures Decode(status, body, round).NotJson?
       <==> !exists d: Document, bs :: IsObject(d, bs) && DocumentText(d) == body
    ensures Decode(status, body, round).NotJson? ==> Decode(status, body, round) == NotJson(status)
  {
    if Decode(status, body, round).NotJson? {
      forall d: Document, bs | IsObject(d, bs) ensures DocumentText(d) != body {
        OnlyFourNamesMatter(status, d, bs, round);
      }
    } else {
      JsonTheorems.ParseIsTheGrammar(body, Parse(body).value);
      var d: Document :|
        && DocumentOk(d) && DocumentText(d) == body
        && TreeValue(d.tree) == Parse(body).value && Height(d.tree) <= MAX_DEPTH;
      var bs := if d.tree.ObjectTree? then Bindings(d.tree.members) else [];
      assert IsObject(d, bs);
    }
  }
}
