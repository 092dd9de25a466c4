/**
 * The record conversion of questions/obfuscate.js: each question of an "mcq"
 * record loses `answer`, each "predict" record loses `answerText`, and the
 * value moves, Base64-encoded, to `answer_b64`.
 */
module Obfuscate {
  import opened Results
  import opened Js
  import Utf8
  import Base64

  /** `encode` once its argument is a string: Base64 of the string's UTF-8 bytes. */
  function EncodeText(s: string): string {
    Base64.Encode(Utf8.Encode(s))
  }

  /** The reading of an `answer_b64` value: Base64, then UTF-8, both strict. */
  function DecodeText(t: string): Option<string> {
    match Base64.Decode(t)
    case None => None
    case Some(b) => Utf8.Decode(b)
  }

  /** `encode(value)`: coerce with `String`, which may throw, then encode. */
  function Encode(v: Value): (r: Result<string, Fault>)
    ensures r.Err? <==> Unconvertible(v)
  {
    match ToText(v)
    case Err(e) => Err(e)
    case Ok(s) => Ok(EncodeText(s))
  }

  /**
   * For any string of `n` UTF-8 bytes the encoding has 4 * ceil(n / 3)
   * characters, all from the Base64 alphabet but the closing `=` padding.
   */
  lemma EncodeTextShape(s: string)
    ensures |EncodeText(s)| == 4 * ((|Utf8.Encode(s)| + 2) / 3)
    ensures Base64.PaddedTo(EncodeText(s), Base64.Padding(|Utf8.Encode(s)|))
  {
    Base64.EncodeLength(Utf8.Encode(s));
    Base64.EncodeAlphabet(Utf8.Encode(s));
  }

  /** Decoding an encoded answer gives back the answer's text. */
  lemma EncodeTextRoundTrip(s: string)
    ensures DecodeText(EncodeText(s)) == Some(s)
  {
    Base64.DecodeEncode(Utf8.Encode(s));
    Utf8.DecodeEncode(s);
  }

  /** Only an encoding decodes: two different texts never share an `answer_b64`. */
  lemma DecodeTextInverse(t: string)
    requires DecodeText(t).Some?
    ensures EncodeText(DecodeText(t).value) == t
  {
    var b := Base64.Decode(t).value;
    Base64.EncodeDecode(t);
    Utf8.EncodeDecode(b);
  }

  /**
   * The property a record's discriminant selects for encoding, if any: the
   * two `if` conditions of the callback. They read the original record.
   */
  function SensitiveField(q: Props): Option<string> {
    if Get(q, "type") == Some(Str("mcq")) && Get(q, "answer").Some? then Some("answer")
    else if Get(q, "type") == Some(Str("predict")) && Get(q, "answerText").Some? then Some("answerText")
    else None
  }

  /**
   * Only `answer` and `answerText` are ever selected, each only on its own
   * record type and only when present; a "type" other than the two, or a
   * missing answer, selects nothing.
   */
  lemma SensitiveFieldCases(q: Props)
    ensures SensitiveField(q) == Some("answer") <==> Get(q, "type") == Some(Str("mcq")) && "answer" in Keys(q)
    ensures SensitiveField(q) == Some("answerText") <==>
      Get(q, "type") == Some(Str("predict")) && "answerText" in Keys(q)
    ensures SensitiveField(q).Some? ==>
      SensitiveField(q).value in {"answer", "answerText"} && Get(q, SensitiveField(q).value).Some?
  {
  }

  /** The callback passed to `data.map`, on the properties of one record. */
  function Converted(q: Props): Result<Props, Fault> {
    match SensitiveField(q)
    case None => Ok(q)
    case Some(field) =>
      match Encode(Get(q, field).value)
      case Err(e) => Err(e)
      case Ok(text) => Ok(Remove(Set(q, "answer_b64", Str(text)), field))
  }

  /**
   * `r` is `q` with `field` gone and `answer_b64` holding the encoding of
   * `text`; every other property keeps its value and its place, and a new
   * `answer_b64` comes last.
   */
  ghost predicate Hides(q: Props, field: string, text: string, r: Props) {
    && Get(r, "answer_b64") == Some(Str(EncodeText(text)))
    && Get(r, field) == None
    && (forall k | k != field && k != "answer_b64" :: Get(r, k) == Get(q, k))
    && Keys(r) == Without(if "answer_b64" in Keys(q) then Keys(q) else Keys(q) + ["answer_b64"], field)
  }

  lemma HideRule(q: Props, field: string)
    requires SensitiveField(q) == Some(field)
    ensures Converted(q).Err? <==> Unconvertible(Get(q, field).value)
    ensures Converted(q).Ok? ==>
      var text := ToText(Get(q, field).value).value;
      && Hides(q, field, text, Converted(q).value)
      && DecodeText(Get(Converted(q).value, "answer_b64").value.s) == Some(text)
  {
    var v := Get(q, field).value;
    if ToText(v).Ok? {
      var answer := Str(EncodeText(ToText(v).value));
      var withAnswer := Set(q, "answer_b64", answer);
      SetGet(q, "answer_b64", answer);
      SetKeys(q, "answer_b64", answer);
      RemoveGet(withAnswer, field);
      RemoveKeys(withAnswer, field);
      EncodeTextRoundTrip(ToText(v).value);
    }
  }

  /**
   * An "mcq" record with an `answer` comes out with `answer_b64` in its
   * place (fails when `String(answer)` throws); the answer is recoverable.
   */
  lemma McqRule(q: Props)
    requires Get(q, "type") == Some(Str("mcq")) && "answer" in Keys(q)
    ensures Converted(q).Err? <==> Unconvertible(Get(q, "answer").value)
    ensures Converted(q).Ok? ==>
      var text := ToText(Get(q, "answer").value).value;
      && Hides(q, "answer", text, Converted(q).value)
      && DecodeText(Get(Converted(q).value, "answer_b64").value.s) == Some(text)
  {
    HideRule(q, "answer");
  }

  /** The same rewrite for a "predict" record and its `answerText`. */
  lemma PredictRule(q: Props)
    requires Get(q, "type") == Some(Str("predict")) && "answerText" in Keys(q)
    ensures Converted(q).Err? <==> Unconvertible(Get(q, "answerText").value)
    ensures Converted(q).Ok? ==>
      var text := ToText(Get(q, "answerText").value).value;
      && Hides(q, "answerText", text, Converted(q).value)
      && DecodeText(Get(Converted(q).value, "answer_b64").value.s) == Some(text)
  {
    HideRule(q, "answerText");
  }

  /** Any other record comes out with the same properties in the same order. */
  lemma PassThrough(q: Props)
    requires !(Get(q, "type") == Some(Str("mcq")) && "answer" in Keys(q))
    requires !(Get(q, "type") == Some(Str("predict")) && "answerText" in Keys(q))
    ensures Converted(q) == Ok(q)
  {
  }

  /** A converted record has no sensitive field left, so converting it again changes nothing. */
  lemma Idempotent(q: Props)
    requires Converted(q).Ok?
    ensures Converted(Converted(q).value) == Converted(q)
  {
    if SensitiveField(q).Some? {
      HideRule(q, SensitiveField(q).value);
    }
  }

  /** The output is again a well-formed object: no property name twice. */
  lemma ConvertedUniqueKeys(q: Props)
    requires UniqueKeys(q) && Converted(q).Ok?
    ensures UniqueKeys(Converted(q).value)
  {
    if SensitiveField(q).Some? {
      var field := SensitiveField(q).value;
      var text := Encode(Get(q, field).value).value;
      SetUniqueKeys(q, "answer_b64", Str(text));
      RemoveUniqueKeys(Set(q, "answer_b64", Str(text)), field);
    }
  }

  /**
   * `data.map(callback)`: the records converted in order; a record whose
   * `encode` throws aborts the whole conversion.
   */
  function ConvertAll(qs: seq<Props>): Result<seq<Props>, Fault> {
    MapAll(Converted, qs)
  }

  /**
   * The conversion succeeds exactly when every record converts; then it has
   * one output per input, and output `i` is input `i` converted.
   */
  lemma ConvertAllEach(qs: seq<Props>)
    ensures ConvertAll(qs).Ok? <==> forall i | 0 <= i < |qs| :: Converted(qs[i]).Ok?
    ensures ConvertAll(qs).Ok? ==>
      && |ConvertAll(qs).value| == |qs|
      && forall i | 0 <= i < |qs| :: Converted(qs[i]) == Ok(ConvertAll(qs).value[i])
  {
    MapAllEach(Converted, qs);
  }

  /** Running the conversion over its own output changes nothing. */
  lemma ConvertAllIdempotent(qs: seq<Props>)
    requires ConvertAll(qs).Ok?
    ensures ConvertAll(ConvertAll(qs).value) == ConvertAll(qs)
  {
    var out := ConvertAll(qs).value;
    ConvertAllEach(qs);
    forall i | 0 <= i < |out|
      ensures Converted(out[i]) == Ok(out[i])
    {
      Idempotent(qs[i]);
    }
    ConvertAllEach(out);
    assert ConvertAll(out).Ok?;
    var again := ConvertAll(out).value;
    assert |again| == |out|;
    assert forall i | 0 <= i < |out| :: again[i] == out[i];
    assert again == out;
  }

  /**
   * The callback, step by step: copy with spread, then assign `answer_b64`
   * and delete the sensitive property on the copy only.
   */
  method ConvertQuestion(q: JsObject) returns (res: Result<JsObject, Fault>)
    ensures q.props == old(q.props)
    ensures res.Ok? <==> Converted(q.props).Ok?
    ensures res.Ok? ==> fresh(res.value) && Converted(q.props) == Ok(res.value.props)
  {
    var copy := new JsObject.Spread(q);
    if q.Lookup("type") == Some(Str("mcq")) && q.Lookup("answer").Some? {
      var encoded := Encode(q.Lookup("answer").value);
      if encoded.Err? {
        return Err(encoded.error);
      }
      copy.Assign("answer_b64", Str(encoded.value));
      copy.Delete("answer");
    }
    if q.Lookup("type") == Some(Str("predict")) && q.Lookup("answerText").Some? {
      var encoded := Encode(q.Lookup("answerText").value);
      if encoded.Err? {
        return Err(encoded.error);
      }
      copy.Assign("answer_b64", Str(encoded.value));
      copy.Delete("answerText");
    }
    return Ok(copy);
  }

  /** The properties of each object, in order. */
  ghost function PropsOf(objs: seq<JsObject>): (ps: seq<Props>)
    reads objs
    ensures |ps| == |objs|
    ensures forall i | 0 <= i < |objs| :: ps[i] == objs[i].props
  {
    if objs == [] then [] else [objs[0].props] + PropsOf(objs[1..])
  }

  /**
   * `data.map(callback)` over the parsed objects: a new array of fresh
   * objects, one per input in the same order; no input is modified.
   */
  method ConvertData(data: seq<JsObject>) returns (res: Result<seq<JsObject>, Fault>)
    ensures PropsOf(data) == old(PropsOf(data))
    ensures res.Ok? <==> ConvertAll(old(PropsOf(data))).Ok?
    ensures res.Ok? ==> |res.value| == |data|
    ensures res.Ok? ==> forall i | 0 <= i < |data| ::
      fresh(res.value[i]) && res.value[i].props == ConvertAll(old(PropsOf(data))).value[i]
  {
    ghost var ps := PropsOf(data);
    ghost var done: seq<Props> := [];
    var out: seq<JsObject> := [];
    var i := 0;
    while i < |data|
      invariant 0 <= i <= |data| && |out| == i && |done| == i
      invariant PropsOf(data) == ps
      invariant ConvertAll(ps[..i]) == Ok(done)
      invariant forall j | 0 <= j < i :: fresh(out[j]) && out[j].props == done[j]
    {
      var r := ConvertQuestion(data[i]);
      if r.Err? {
        MapAllFails(Converted, ps, i);
        return Err(r.error);
      }
      MapAllPrefix(Converted, ps, i);
      out, done := out + [r.value], done + [r.value.props];
      i := i + 1;
    }
    assert ps[..i] == ps;
    return Ok(out);
  }
}
