/**
 * Cadence templates and JSON-Cadence arguments (src/core/cadence.rs): every
 * argument is the JSON object `{"type": T, "value": v}` as serde_json
 * writes it, with `T` the Cadence type the program infers for `v`. The
 * JSON reader is the partner: reading an encoded argument back gives its
 * type name and its value.
 */
module Cadence {
  import opened Wrappers
  import opened Errors
  import opened Bytes
  import Text
  import Json

  /** `load_template`: only the "mint" template exists; its text is the
      file the program embeds at build time, given here as `mintScript`. */
  function LoadTemplate(name: string, mintScript: string): (r: Result<string>)
    ensures r.Ok? <==> name == "mint"
    ensures r.Ok? ==> r.value == mintScript
    ensures r.Err? ==> r.error == InvalidInput("Unknown template: " + name)
  {
    if name == "mint" then Ok(mintScript) else Err(InvalidInput("Unknown template: " + name))
  }

  /** `infer_cadence_type`: a Cadence type name for every kind of JSON value. */
  function InferCadenceType(v: Json.Json): (t: string)
    ensures t == "String" <==> v.String?
    ensures t == "UInt64" <==> v.Number?
    ensures t == "Bool" <==> v.Bool?
    ensures t == "Array" <==> v.Array?
    ensures t == "Dictionary" <==> v.Object?
    ensures t == "Optional" <==> v.Null?
  {
    match v
    case String(_) => "String"
    case Number(_) => "UInt64"
    case Bool(_) => "Bool"
    case Array(_) => "Array"
    case Object(_) => "Dictionary"
    case Null => "Optional"
  }

  /** Two values are of the same kind: both strings, both numbers, and so on. */
  predicate SameKind(v: Json.Json, w: Json.Json) {
    || (v.String? && w.String?)
    || (v.Number? && w.Number?)
    || (v.Bool? && w.Bool?)
    || (v.Array? && w.Array?)
    || (v.Object? && w.Object?)
    || (v.Null? && w.Null?)
  }

  /** The inferred type name tells the kinds apart: two values get the same
      name exactly when they are of the same kind. */
  lemma InferredTypeNamesKind(v: Json.Json, w: Json.Json)
    ensures InferCadenceType(v) == InferCadenceType(w) <==> SameKind(v, w)
  {
    var names := ["String", "UInt64", "Bool", "Array", "Dictionary", "Optional"];
    assert forall i, j :: 0 <= i < j < |names| ==> |names[i]| != |names[j]| || names[i][0] != names[j][0];
  }

  /** The JSON-Cadence object of a value with a type name, fields in the
      order `type`, `value` (serde_json's default map sorts its keys, and
      this is their sorted order). */
  function Cdc(typeName: string, value: Json.Json): (j: Json.Json)
    ensures Json.Get(j, "type") == Some(Json.String(typeName))
    ensures Json.Get(j, "value") == Some(value)
  {
    var fields := [Json.Field("type", Json.String(typeName)), Json.Field("value", value)];
    assert "type"[0] != "value"[0];
    assert fields[1..] == [Json.Field("value", value)];
    assert Json.Lookup(fields[1..], "value") == Some(value);
    assert Json.Lookup(fields, "value") == Some(value);
    Json.Object(fields)
  }

  /** `encode_argument`. Writing a `serde_json::Value` cannot fail, so the
      serialization error is never returned. */
  function EncodeArgument(v: Json.Json): (r: Result<seq<byte>>)
    ensures r.Ok?
    ensures Json.FromBytes(r.value) == Some(Cdc(InferCadenceType(v), v))
  {
    Json.BytesRoundTrip(Cdc(InferCadenceType(v), v));
    Ok(Json.ToBytes(Cdc(InferCadenceType(v), v)))
  }

  /** `encode_address`: drops one leading "0x" and puts one back; the rest
      of the text is not checked. */
  function EncodeAddress(address: string): (r: Result<seq<byte>>)
    ensures r.Ok?
    ensures Json.FromBytes(r.value) == Some(Cdc("Address", Json.String("0x" + Text.StripPrefix(address, "0x"))))
  {
    var value := Json.String("0x" + Text.StripPrefix(address, "0x"));
    Json.BytesRoundTrip(Cdc("Address", value));
    Ok(Json.ToBytes(Cdc("Address", value)))
  }

  /** `encode_string`. */
  function EncodeString(s: string): (r: Result<seq<byte>>)
    ensures r.Ok?
    ensures Json.FromBytes(r.value) == Some(Cdc("String", Json.String(s)))
  {
    Json.BytesRoundTrip(Cdc("String", Json.String(s)));
    Ok(Json.ToBytes(Cdc("String", Json.String(s))))
  }

  /** Reading an encoded argument back gives the inferred type name and the
      value itself. */
  lemma ArgumentReadsBack(v: Json.Json)
    ensures var j := Json.FromBytes(EncodeArgument(v).value);
      && j.Some?
      && Json.Get(j.value, "type") == Some(Json.String(InferCadenceType(v)))
      && Json.Get(j.value, "value") == Some(v)
  {
  }

  /** Distinct values are encoded as distinct arguments. */
  lemma ArgumentInjective(v: Json.Json, w: Json.Json)
    requires EncodeArgument(v) == EncodeArgument(w)
    ensures v == w
  {
    assert Json.FromBytes(EncodeArgument(v).value) == Json.FromBytes(EncodeArgument(w).value);
    assert Cdc(InferCadenceType(v), v) == Cdc(InferCadenceType(w), w);
    assert Json.Get(Cdc(InferCadenceType(v), v), "value") == Some(v);
  }

  /** `encode_string(s)` is `encode_argument` of the JSON string `s`. */
  lemma StringIsArgument(s: string)
    ensures EncodeString(s) == EncodeArgument(Json.String(s))
  {
  }

  /** The encoded address always has exactly one "0x" in front of what
      followed the caller's optional prefix. */
  lemma AddressValue(address: string)
    ensures var j := Json.FromBytes(EncodeAddress(address).value).value;
      && Json.Get(j, "type") == Some(Json.String("Address"))
      && Json.Get(j, "value") == Some(Json.String("0x" + Text.StripPrefix(address, "0x")))
      && (Text.StartsWith(address, "0x") ==> Json.Get(j, "value") == Some(Json.String(address)))
  {
  }

  /** With or without the prefix, an address is encoded the same way. */
  lemma AddressPrefixOptional(address: string)
    requires !Text.StartsWith(address, "0x")
    ensures EncodeAddress("0x" + address) == EncodeAddress(address)
  {
    assert ("0x" + address)[..2] == "0x";
    assert ("0x" + address)[2..] == address;
  }

  /** Only one prefix is removed: a doubled prefix stays in the value. */
  lemma AddressOnePrefixOnly(address: string)
    ensures Json.Get(Json.FromBytes(EncodeAddress("0x0x" + address).value).value, "value")
            == Some(Json.String("0x0x" + address))
  {
    assert ("0x0x" + address)[..2] == "0x";
  }
}
