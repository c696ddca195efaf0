/**
 * The dispatch skeleton shared by every Avro value serializer: `Serialize`
 * and `Deserialize` look up the schema of the current field and hand it to
 * the two hooks a concrete serializer supplies. On the encode side a union
 * schema is first narrowed to its non-null branch; on the decode side the
 * schema is passed on unchanged.
 */
module Serialization {

  /** The kinds of Avro schema. */
  datatype SchemaType =
    | RECORD | ENUM | ARRAY | MAP | UNION | FIXED
    | STRING | BYTES | INT | LONG | FLOAT | DOUBLE | BOOLEAN | NULL

  /** A schema node: its kind and, for a union, its branches in order. */
  datatype Schema = Schema(kind: SchemaType, types: seq<Schema>)

  /** An encoder positioned at a field: the field's schema and the output written so far. */
  datatype Encoder<W> = Encoder(fieldSchema: Schema, output: W)

  /** A decoder positioned at a field: the field's schema and the input still to be read. */
  datatype Decoder<I> = Decoder(fieldSchema: Schema, input: I)

  /** A call the skeleton makes to one of the two hooks, with the arguments it passes. */
  datatype HookCall<T> =
    | EncodeAvroValue(schema: Schema, obj: T)
    | DecodeAvroValue(schema: Schema)

  /**
   * A concrete serializer is given by its two hooks: `encodeAvroValue`
   * writes a value under a schema and yields the new output,
   * `decodeAvroValue` reads a value under a schema.
   */
  datatype AvroSerializer<!T, !W, !I> = AvroSerializer(
    encodeAvroValue: (Schema, Encoder<W>, T) -> W,
    decodeAvroValue: (Schema, Decoder<I>) -> T)

  /** What serializing produced: the new output and the hook calls made. */
  datatype Encoded<T, W> = Encoded(output: W, calls: seq<HookCall<T>>)

  /** What deserializing produced: the value and the hook calls made. */
  datatype Decoded<T> = Decoded(value: T, calls: seq<HookCall<T>>)

  /**
   * Writes `value` at the encoder's current field. `extractNonNull` is the
   * schema helper that picks a union's non-null branch; its body is not part
   * of this model, so it is a parameter.
   */
  function Serialize<T, W, I>(serializer: AvroSerializer<T, W, I>, extractNonNull: Schema -> Schema,
                              encoder: Encoder<W>, value: T): (e: Encoded<T, W>)
    // the encode hook is called exactly once, with the caller's value
    ensures |e.calls| == 1 && e.calls[0].EncodeAvroValue? && e.calls[0].obj == value
    // a schema that is not a union reaches the hook as it is
    ensures encoder.fieldSchema.kind != UNION ==> e.calls[0].schema == encoder.fieldSchema
    // a union is replaced by its non-null branch
    ensures encoder.fieldSchema.kind == UNION ==> e.calls[0].schema == extractNonNull(encoder.fieldSchema)
    // the result is exactly what the hook wrote
    ensures e.output == serializer.encodeAvroValue(e.calls[0].schema, encoder, value)
  {
    var schema := encoder.fieldSchema;
    var subschema := match schema.kind
      case UNION => extractNonNull(schema)
      case _ => schema;
    Encoded(serializer.encodeAvroValue(subschema, encoder, value), [EncodeAvroValue(subschema, value)])
  }

  /** Reads a value at the decoder's current field; the schema is not narrowed. */
  function Deserialize<T, W, I>(serializer: AvroSerializer<T, W, I>, decoder: Decoder<I>): (d: Decoded<T>)
    // the decode hook is called exactly once, with the field schema as it is, union or not
    ensures d.calls == [DecodeAvroValue(decoder.fieldSchema)]
    // the value returned is the value the hook produced
    ensures d.value == serializer.decodeAvroValue(decoder.fieldSchema, decoder)
  {
    var schema := decoder.fieldSchema;
    Decoded(serializer.decodeAvroValue(schema, decoder), [DecodeAvroValue(schema)])
  }

  /**
   * The schema policy is the skeleton's, not the subclass's: any two
   * serializers make the same hook call for the same field and value.
   */
  lemma EncodePolicyUniform<T, W, I>(s1: AvroSerializer<T, W, I>, s2: AvroSerializer<T, W, I>,
                                     extractNonNull: Schema -> Schema, encoder: Encoder<W>, value: T)
    ensures Serialize(s1, extractNonNull, encoder, value).calls == Serialize(s2, extractNonNull, encoder, value).calls
  {
  }

  /** The same for decoding: the hook call does not depend on the serializer. */
  lemma DecodePolicyUniform<T, W, I>(s1: AvroSerializer<T, W, I>, s2: AvroSerializer<T, W, I>, decoder: Decoder<I>)
    ensures Deserialize(s1, decoder).calls == Deserialize(s2, decoder).calls
  {
  }

  /**
   * If `extractNonNull` always yields a schema that is not a union, the
   * encode hook never sees a union, while the decode hook sees one exactly
   * when the field's schema is a union.
   */
  lemma UnionSeenOnlyWhenDecoding<T, W, I>(serializer: AvroSerializer<T, W, I>, extractNonNull: Schema -> Schema,
                                           schema: Schema, output: W, input: I, value: T)
    requires schema.kind == UNION ==> extractNonNull(schema).kind != UNION
    ensures Serialize(serializer, extractNonNull, Encoder(schema, output), value).calls[0].schema.kind != UNION
    ensures Deserialize(serializer, Decoder(schema, input)).calls[0].schema.kind == UNION <==> schema.kind == UNION
  {
  }

  /** Off unions, encoding and decoding hand the hooks the same schema. */
  lemma SameSchemaOffUnion<T, W, I>(serializer: AvroSerializer<T, W, I>, extractNonNull: Schema -> Schema,
                                    schema: Schema, output: W, input: I, value: T)
    requires schema.kind != UNION
    ensures Serialize(serializer, extractNonNull, Encoder(schema, output), value).calls[0].schema
         == Deserialize(serializer, Decoder(schema, input)).calls[0].schema
  {
  }
}
