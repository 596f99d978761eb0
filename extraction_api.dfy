/**
 * The field extraction of `Extraction_api.py` (`extract_product_info`):
 * the four field patterns run over the vision model's reply, a capture
 * stored on a match and the entry left as it was otherwise.  The model
 * call and the image encoding are outside the model; the reply arrives as
 * a string.
 */
module ExtractionApi {

  import opened Json
  import FieldPattern
  import ApiFunctions

  /** The initial `product_info`: the four field keys, all None. */
  const ProductInfoInit: map<string, Json> :=
    map["product_name" := JNull, "company" := JNull, "start_date" := JNull, "end_date" := JNull]

  /** The record the loop leaves: patterns applied in `patterns` order, no clearing. */
  function ProductRecord(reply: string): map<string, Json>
  {
    FieldPattern.ApplyPatterns(ProductInfoInit, reply, FieldPattern.FieldKeys, false)
  }

  /** `extract_product_info` after the model call: the pattern loop over the reply. */
  method ExtractProductInfo(reply: string) returns (info: map<string, Json>)
    ensures info == ProductRecord(reply)
  {
    info := FieldPattern.RunPatterns(ProductInfoInit, reply, FieldPattern.FieldKeys, false);
  }

  /**
   * The record has exactly the four field keys, and each holds the
   * capture of its pattern, or None when the pattern does not match.
   */
  lemma ProductRecordContents(reply: string)
    ensures ProductRecord(reply).Keys == FieldPattern.KeySet(FieldPattern.FieldKeys)
    ensures forall k :: k in FieldPattern.FieldKeys ==> ProductRecord(reply)[k] == FromOption(FieldPattern.FindField(reply, k))
  {
    assert ProductInfoInit.Keys == FieldPattern.KeySet(FieldPattern.FieldKeys);
    forall k | k in FieldPattern.FieldKeys
      ensures ProductRecord(reply)[k] == FromOption(FieldPattern.FindField(reply, k))
    {
      FieldPattern.ApplyPatternsEffect(ProductInfoInit, reply, FieldPattern.FieldKeys, false, k);
    }
  }

  /** Visiting the four patterns in any order gives the same record. */
  lemma ProductRecordOrderIrrelevant(reply: string, keys: seq<string>)
    requires forall k :: k in keys <==> k in FieldPattern.FieldKeys
    ensures FieldPattern.ApplyPatterns(ProductInfoInit, reply, keys, false) == ProductRecord(reply)
  {
    FieldPattern.PatternOrderIrrelevant(ProductInfoInit, reply, keys, FieldPattern.FieldKeys, false);
  }

  /**
   * The two revisions of the extractor agree on the four fields: the
   * image record of `Api_Functions.py` is this record plus its day count.
   */
  lemma RevisionsAgree(reply: string)
    ensures ApiFunctions.ImageRecord(reply) - {ApiFunctions.DaysBeforeExpireKey} == ProductRecord(reply)
  {
    ProductRecordContents(reply);
    ApiFunctions.ImageRecordContents(reply);
    ApiFunctions.ImageKeys();
    var a, b := ApiFunctions.ImageRecord(reply) - {ApiFunctions.DaysBeforeExpireKey}, ProductRecord(reply);
    assert a.Keys == ApiFunctions.ImageInfoInit.Keys - {ApiFunctions.DaysBeforeExpireKey};
  }
}
