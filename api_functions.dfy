/**
 * The decision logic of `Api_Functions.py`: repairing the text model's
 * reply into a JSON candidate (`clean_json_response`), completing the
 * parsed sale record (the tail of `extract_products`), and filling the
 * image record from the vision model's reply (the tail of
 * `extract_image_product_info`).  The model calls themselves are outside
 * the model: their replies arrive as strings, and `json.loads` arrives as
 * its outcome.
 */
module ApiFunctions {

  import opened Wrappers
  import opened Json
  import Text
  import Calendar
  import FieldPattern

  // ---------------------------------------------------------------------
  // clean_json_response

  /** `content.strip().strip("`").strip()`. */
  function Trimmed(content: string): string
  {
    Text.Strip(Text.Strip(Text.Strip(content, Text.IsSpace), Text.IsBacktick), Text.IsSpace)
  }

  /** Some `{` has a `}` after it: exactly when `\{.*\}` (DOTALL) can match. */
  predicate HasBraceSpan(t: string)
  {
    exists i, j :: 0 <= i < j < |t| && t[i] == '{' && t[j] == '}'
  }

  /** `r` begins with `{` and ends with a distinct `}`. */
  predicate Braced(r: string)
  {
    |r| >= 2 && r[0] == '{' && r[|r| - 1] == '}'
  }

  /**
   * `r` is `t[i..j + 1]` where `i` holds the first `{` of `t` and `j` the
   * last `}`, which comes after it.
   */
  ghost predicate GreedySpan(t: string, r: string, i: int, j: int)
  {
    && 0 <= i < j < |t|
    && t[i] == '{' && '{' !in t[..i]
    && t[j] == '}' && '}' !in t[j + 1..]
    && r == t[i..j + 1]
  }

  /** A brace span exists exactly when the first `{` comes before the last `}`. */
  lemma BraceSpanByIndices(t: string)
    ensures HasBraceSpan(t) <==>
              Text.FirstIndex(t, '{').Some? && Text.LastIndex(t, '}').Some?
              && Text.FirstIndex(t, '{').value < Text.LastIndex(t, '}').value
  {
    if HasBraceSpan(t) {
      var a, b :| 0 <= a < b < |t| && t[a] == '{' && t[b] == '}';
      var i, j := Text.FirstIndex(t, '{').value, Text.LastIndex(t, '}').value;
    }
  }

  /**
   * The match of `\{.*\}` (DOTALL) in `t`, or `"{}"` when there is none.
   * Searching leftmost, the match starts at the first `{`; `.*` then runs
   * to the end of `t` and backs off to the last `}`.
   */
  function BraceSpan(t: string): (r: string)
    ensures Braced(r)
    ensures !HasBraceSpan(t) ==> r == "{}"
    ensures HasBraceSpan(t) ==> exists i, j :: GreedySpan(t, r, i, j)
  {
    BraceSpanByIndices(t);
    match (Text.FirstIndex(t, '{'), Text.LastIndex(t, '}'))
    case (Some(i), Some(j)) =>
      if i < j then
        assert GreedySpan(t, t[i..j + 1], i, j);
        t[i..j + 1]
      else "{}"
    case _ => "{}"
  }

  /**
   * `clean_json_response`: the JSON candidate of a reply, taken from the
   * reply once whitespace and backtick fences are trimmed.
   */
  function CleanJsonResponse(content: string): (r: string)
    ensures Braced(r)
    ensures !HasBraceSpan(Trimmed(content)) ==> r == "{}"
    ensures HasBraceSpan(Trimmed(content)) ==> exists i, j :: GreedySpan(Trimmed(content), r, i, j)
  {
    BraceSpan(Trimmed(content))
  }

  /**
   * Repair is idempotent: its output starts with `{` and ends with `}`, so
   * trimming changes nothing and the greedy span is the whole text.
   */
  lemma CleanJsonIdempotent(content: string)
    ensures CleanJsonResponse(CleanJsonResponse(content)) == CleanJsonResponse(content)
  {
    var r := CleanJsonResponse(content);
    assert Braced(r);
    CleanJsonFixed(r);
  }

  /** A candidate that already begins with `{` and ends with `}` is repaired to itself. */
  lemma CleanJsonFixed(r: string)
    requires Braced(r)
    ensures CleanJsonResponse(r) == r
  {
    TrimmedFixed(r);
    BraceSpanWhole(r);
  }

  /** Text that begins with `{` and ends with `}` is untouched by trimming. */
  lemma TrimmedFixed(r: string)
    requires Braced(r)
    ensures Trimmed(r) == r
  {
    Text.StripFixed(r, Text.IsSpace);
    Text.StripFixed(r, Text.IsBacktick);
  }

  /** Text that begins with `{` and ends with `}` is its own greedy span. */
  lemma BraceSpanWhole(r: string)
    requires Braced(r)
    ensures BraceSpan(r) == r
  {
    assert HasBraceSpan(r);
    var i, j :| GreedySpan(r, BraceSpan(r), i, j);
    assert i == 0;
    assert j == |r| - 1;
    assert r[0..|r|] == r;
  }

  /** The reply is stripped before repair (`.content.strip()`); that changes nothing. */
  lemma CleanJsonIgnoresOuterWhitespace(content: string)
    ensures CleanJsonResponse(Text.Strip(content, Text.IsSpace)) == CleanJsonResponse(content)
  {
    Text.StripIdempotent(content, Text.IsSpace);
  }

  // ---------------------------------------------------------------------
  // extract_products: completing the parsed record

  const PersonName: string := "person_name"
  const Products: string := "products"

  /** The keys every product line item is given, in `setdefault` order. */
  const LineItemKeys: seq<string> := ["product_name", "quantity", "price", "transaction_type", "payment_date"]

  /** The record used when the candidate is not valid JSON. */
  const EmptySale: map<string, Json> := map[PersonName := JNull, Products := JArray([])]

  /** `obj.setdefault(key, None)`: a missing key is added as None, a present one kept. */
  function SetDefault(obj: map<string, Json>, key: string): (r: map<string, Json>)
    ensures forall k :: k in r <==> k in obj || k == key
    ensures forall k :: k in r ==> r[k] == if k in obj then obj[k] else JNull
  {
    if key in obj then obj else obj[key := JNull]
  }

  /**
   * A product line item after its five `setdefault` calls, in source
   * order: the item's own entries kept, the missing line-item keys added
   * as None, nothing else added.
   */
  function CompleteLineItem(item: map<string, Json>): (r: map<string, Json>)
    ensures forall k :: k in r <==> k in item || k in LineItemKeys
    ensures forall k :: k in r ==> r[k] == if k in item then item[k] else JNull
  {
    var a := SetDefault(item, LineItemKeys[0]);
    var b := SetDefault(a, LineItemKeys[1]);
    var c := SetDefault(b, LineItemKeys[2]);
    var d := SetDefault(c, LineItemKeys[3]);
    SetDefault(d, LineItemKeys[4])
  }

  /** Completing an item that is already complete changes nothing. */
  lemma CompleteLineItemIdempotent(item: map<string, Json>)
    ensures CompleteLineItem(CompleteLineItem(item)) == CompleteLineItem(item)
  {
  }

  /**
   * The uncaught exception of the completion loop: `setdefault` on a
   * product that is not a dict raises AttributeError.
   */
  datatype NormaliseError = ItemNotObject(index: nat)

  /** The position of the first item that is not an object, if any. */
  function FirstNonObject(items: seq<Json>): (r: Option<nat>)
    ensures r.None? <==> forall i :: 0 <= i < |items| ==> items[i].JObject?
    ensures r.Some? ==> r.value < |items| && !items[r.value].JObject?
                        && forall i :: 0 <= i < r.value ==> items[i].JObject?
  {
    if items == [] then None
    else if !items[0].JObject? then Some(0)
    else
      match FirstNonObject(items[1..])
      case None => None
      case Some(k) => Some(k + 1)
  }

  /**
   * The `for product in result["products"]` loop: every item completed, in
   * order, or the error raised at the first item that is not an object.
   */
  function CompleteItems(items: seq<Json>): (r: Result<seq<Json>, NormaliseError>)
    ensures r.Success? <==> forall i :: 0 <= i < |items| ==> items[i].JObject?
    ensures r.Failure? ==> r.error.index < |items| && !items[r.error.index].JObject?
                           && forall i :: 0 <= i < r.error.index ==> items[i].JObject?
    ensures r.Success? ==> |r.value| == |items|
                           && forall i :: 0 <= i < |items| ==>
                                items[i].JObject? && r.value[i] == JObject(CompleteLineItem(items[i].fields))
  {
    match FirstNonObject(items)
    case Some(k) => Failure(ItemNotObject(k))
    case None => Success(CompletedPrefix(items, |items|))
  }

  /** The first `n` items completed, as the loop has them after `n` turns. */
  function CompletedPrefix(items: seq<Json>, n: nat): seq<Json>
    requires n <= |items| && forall i :: 0 <= i < n ==> items[i].JObject?
  {
    seq(n, i requires 0 <= i < n => JObject(CompleteLineItem(items[i].fields)))
  }

  lemma CompletedPrefixSnoc(items: seq<Json>, n: nat)
    requires n < |items| && forall i :: 0 <= i <= n ==> items[i].JObject?
    ensures CompletedPrefix(items, n + 1) == CompletedPrefix(items, n) + [JObject(CompleteLineItem(items[n].fields))]
  {
    var a, b := CompletedPrefix(items, n + 1), CompletedPrefix(items, n);
    forall j | 0 <= j < n
      ensures a[j] == b[j]
    {
    }
    assert a[..n] == b;
  }

  /** What the completion starts from: the parsed object, or `EmptySale` after a JSONDecodeError. */
  function Loaded(parsed: Option<map<string, Json>>): map<string, Json>
  {
    if parsed.Some? then parsed.value else EmptySale
  }

  /** `"products"` is present and holds a list. */
  predicate HasProductList(obj: map<string, Json>)
  {
    Products in obj && obj[Products].JArray?
  }

  /**
   * The whole completion of `extract_products`, from the outcome of
   * `json.loads` to the record it dumps, or the error it raises.
   */
  function Normalised(parsed: Option<map<string, Json>>): (r: Result<map<string, Json>, NormaliseError>)
    ensures parsed.None? ==> r == Success(EmptySale)
    ensures var obj := Loaded(parsed);
            r.Failure? <==> HasProductList(obj) && exists i :: 0 <= i < |obj[Products].items| && !obj[Products].items[i].JObject?
    ensures var obj := Loaded(parsed);
            r.Failure? ==> HasProductList(obj) && r.error.index < |obj[Products].items|
                           && !obj[Products].items[r.error.index].JObject?
                           && forall i :: 0 <= i < r.error.index ==> obj[Products].items[i].JObject?
    ensures var obj := Loaded(parsed);
            r.Success? ==>
              && r.value.Keys == obj.Keys + {PersonName, Products}
              && r.value[PersonName] == (if PersonName in obj && Truthy(obj[PersonName]) then obj[PersonName] else JNull)
              && (forall k :: k in obj && k != PersonName && k != Products ==> r.value[k] == obj[k])
    ensures var obj := Loaded(parsed);
            r.Success? && !HasProductList(obj) ==> r.value[Products] == JArray([])
    ensures var obj := Loaded(parsed);
            r.Success? && HasProductList(obj) ==>
              var items := obj[Products].items;
              && r.value[Products].JArray?
              && |r.value[Products].items| == |items|
              && forall i :: 0 <= i < |items| ==>
                   items[i].JObject? && r.value[Products].items[i] == JObject(CompleteLineItem(items[i].fields))
  {
    var obj := Loaded(parsed);
    var named := if PersonName !in obj || !Truthy(obj[PersonName]) then obj[PersonName := JNull] else obj;
    assert parsed.None? ==> named == EmptySale && named[Products := JArray([])] == EmptySale;
    if !HasProductList(named) then Success(named[Products := JArray([])])
    else
      match CompleteItems(named[Products].items)
      case Failure(e) => Failure(e)
      case Success(items) => Success(named[Products := JArray(items)])
  }

  /** A person name survives exactly when it was present and truthy. */
  lemma PersonNameKept(parsed: Option<map<string, Json>>)
    requires Normalised(parsed).Success?
    ensures Normalised(parsed).value[PersonName] != JNull <==>
              parsed.Some? && PersonName in parsed.value && Truthy(parsed.value[PersonName])
  {
  }

  /** A reply that is not JSON and a reply that is the empty object end the same. */
  lemma ParseFailureIsEmptyObject()
    ensures Normalised(None) == Normalised(Some(map[]))
  {
    assert Normalised(Some(map[])).value.Keys == EmptySale.Keys;
  }

  /**
   * Every product of a completed record carries the five line-item keys:
   * no caller sees a partial item.
   */
  lemma CompletedItemsHaveAllKeys(parsed: Option<map<string, Json>>, i: int, k: string)
    requires Normalised(parsed).Success?
    requires 0 <= i < |Normalised(parsed).value[Products].items|
    requires k in LineItemKeys
    ensures Normalised(parsed).value[Products].items[i].JObject?
    ensures k in Normalised(parsed).value[Products].items[i].fields
  {
  }

  /**
   * The `for product in result["products"]` loop as the source runs it:
   * each product patched in list order until one is not a dict.
   */
  method CompleteEachItem(items: seq<Json>) returns (r: Result<seq<Json>, NormaliseError>)
    ensures r == CompleteItems(items)
  {
    var done: seq<Json> := [];
    var i := 0;
    while i < |items|
      invariant 0 <= i <= |items|
      invariant forall j :: 0 <= j < i ==> items[j].JObject?
      invariant done == CompletedPrefix(items, i)
    {
      if !items[i].JObject? {
        return Failure(ItemNotObject(i));
      }
      CompletedPrefixSnoc(items, i);
      done := done + [JObject(CompleteLineItem(items[i].fields))];
      i := i + 1;
    }
    return Success(done);
  }

  /**
   * The completion as the source runs it: the parsed dict is patched in
   * place, then each product is patched in list order.
   */
  method NormaliseSaleRecord(parsed: Option<map<string, Json>>) returns (r: Result<map<string, Json>, NormaliseError>)
    ensures r == Normalised(parsed)
  {
    var result := if parsed.Some? then parsed.value else EmptySale;
    if PersonName !in result || !Truthy(result[PersonName]) {
      result := result[PersonName := JNull];
    }
    if Products !in result || !result[Products].JArray? {
      result := result[Products := JArray([])];
    } else {
      var items := CompleteEachItem(result[Products].items);
      if items.Failure? {
        return Failure(items.error);
      }
      result := result[Products := JArray(items.value)];
    }
    return Success(result);
  }

  // ---------------------------------------------------------------------
  // extract_image_product_info: field extraction and the date delta

  const StartDate: string := "start_date"
  const EndDate: string := "end_date"
  const DaysBeforeExpireKey: string := "days_before_expire"

  /** The initial `product_info`: the four field keys and the day count, all None. */
  const ImageInfoInit: map<string, Json> :=
    map["product_name" := JNull, "company" := JNull, StartDate := JNull, EndDate := JNull, DaysBeforeExpireKey := JNull]

  /** The image record's keys: the four pattern keys and the day count, which no pattern writes. */
  lemma ImageKeys()
    ensures ImageInfoInit.Keys == FieldPattern.KeySet(FieldPattern.FieldKeys) + {DaysBeforeExpireKey}
    ensures DaysBeforeExpireKey !in FieldPattern.FieldKeys
  {
  }

  /**
   * `days_before_expire`: computed only when both dates are truthy and both
   * parse as `%d-%m-%y`; then end minus start in days, negative when the
   * end comes first.
   */
  function ExpiryDays(start: Option<string>, end: Option<string>): (r: Option<int>)
    ensures r.Some? <==> && start.Some? && end.Some? && start.value != [] && end.value != []
                         && Calendar.ParseDate(start.value).Some? && Calendar.ParseDate(end.value).Some?
    ensures r.Some? ==>
              var s, e := Calendar.ParseDate(start.value).value, Calendar.ParseDate(end.value).value;
              && r.value == Calendar.Ordinal(e) - Calendar.Ordinal(s)
              && (r.value < 0 <==> Calendar.Before(e, s))
              && (r.value == 0 <==> e == s)
  {
    if start.Some? && end.Some? && start.value != [] && end.value != [] then
      Calendar.DaysBetween(start.value, end.value)
    else None
  }

  /** The day count as it is stored: a JSON integer or null. */
  function DaysJson(days: Option<int>): Json
  {
    match days
    case Some(n) => JNumber(n, 0)
    case None => JNull
  }

  /**
   * The truthiness test on the two stored dates decides exactly what
   * `ExpiryDays` decides on the two captures.
   */
  lemma ExpiryDaysOfFields(start: Option<string>, end: Option<string>)
    ensures Truthy(FromOption(start)) && Truthy(FromOption(end)) ==>
              ExpiryDays(start, end) == Calendar.DaysBetween(start.value, end.value)
    ensures !(Truthy(FromOption(start)) && Truthy(FromOption(end))) ==> ExpiryDays(start, end).None?
  {
    assert Truthy(FromOption(start)) <==> start.Some? && start.value != [];
    assert Truthy(FromOption(end)) <==> end.Some? && end.value != [];
  }

  /**
   * The `if product_info["start_date"] and product_info["end_date"]` step:
   * when both dates are truthy strings the day count is set to their
   * difference, or to None when either fails to parse (the ValueError
   * branch); otherwise the record is left alone.
   */
  method StoreExpiryDays(fields: map<string, Json>) returns (info: map<string, Json>)
    requires StartDate in fields && EndDate in fields && DaysBeforeExpireKey in fields
    requires fields[StartDate].JNull? || fields[StartDate].JString?
    requires fields[EndDate].JNull? || fields[EndDate].JString?
    ensures info.Keys == fields.Keys
    ensures forall k :: k in fields && k != DaysBeforeExpireKey ==> info[k] == fields[k]
    ensures Truthy(fields[StartDate]) && Truthy(fields[EndDate]) ==>
              info[DaysBeforeExpireKey] == DaysJson(Calendar.DaysBetween(fields[StartDate].s, fields[EndDate].s))
    ensures !(Truthy(fields[StartDate]) && Truthy(fields[EndDate])) ==> info[DaysBeforeExpireKey] == fields[DaysBeforeExpireKey]
  {
    info := fields;
    var start, end := info[StartDate], info[EndDate];
    if Truthy(start) && Truthy(end) {
      var days := Calendar.DaysBetween(start.s, end.s);
      if days.Some? {
        info := info[DaysBeforeExpireKey := JNumber(days.value, 0)];
      } else {
        info := info[DaysBeforeExpireKey := JNull];
      }
    }
  }

  /**
   * The record `extract_image_product_info` builds from the vision model's
   * reply: the four fields as the loop leaves them, then the day count.
   */
  function ImageRecord(reply: string): map<string, Json>
  {
    var fields := FieldPattern.ApplyPatterns(ImageInfoInit, reply, FieldPattern.FieldKeys, true);
    fields[DaysBeforeExpireKey := DaysJson(ExpiryDays(FieldPattern.FindField(reply, StartDate), FieldPattern.FindField(reply, EndDate)))]
  }

  /**
   * The image record has exactly the five initial keys; each field is the
   * capture of its pattern or None, and the day count is set exactly when
   * both dates were captured and parse, to the date step's result.
   */
  lemma ImageRecordContents(reply: string)
    ensures ImageRecord(reply).Keys == ImageInfoInit.Keys
    ensures forall k :: k in FieldPattern.FieldKeys ==> ImageRecord(reply)[k] == FromOption(FieldPattern.FindField(reply, k))
    ensures ImageRecord(reply)[DaysBeforeExpireKey] != JNull <==>
              ExpiryDays(FieldPattern.FindField(reply, StartDate), FieldPattern.FindField(reply, EndDate)).Some?
    ensures ImageRecord(reply)[DaysBeforeExpireKey] ==
              DaysJson(ExpiryDays(FieldPattern.FindField(reply, StartDate), FieldPattern.FindField(reply, EndDate)))
  {
    ImageFieldsEntry(reply);
    ImageDaysEntry(reply);
  }

  /** Each pattern key holds its capture, or None when the pattern did not match. */
  lemma ImageFieldsEntry(reply: string)
    ensures ImageRecord(reply).Keys == ImageInfoInit.Keys
    ensures forall k :: k in FieldPattern.FieldKeys ==> ImageRecord(reply)[k] == FromOption(FieldPattern.FindField(reply, k))
  {
    var fields := FieldPattern.ApplyPatterns(ImageInfoInit, reply, FieldPattern.FieldKeys, true);
    assert DaysBeforeExpireKey in fields;
    ImageKeys();
    forall k | k in FieldPattern.FieldKeys
      ensures ImageRecord(reply)[k] == FromOption(FieldPattern.FindField(reply, k))
    {
      assert ImageRecord(reply)[k] == fields[k];
      FieldPattern.ApplyPatternsEffect(ImageInfoInit, reply, FieldPattern.FieldKeys, true, k);
    }
  }

  /** The stored day count is the date step's result on the two captures. */
  lemma ImageDaysEntry(reply: string)
    ensures ImageRecord(reply)[DaysBeforeExpireKey] ==
              DaysJson(ExpiryDays(FieldPattern.FindField(reply, StartDate), FieldPattern.FindField(reply, EndDate)))
  {
  }

  /**
   * A day count in the image record comes from two captured dates that
   * parse, and is the end date's day number minus the start date's.
   */
  lemma ImageDaysValue(reply: string, info: map<string, Json>)
    requires info == ImageRecord(reply)
    ensures var start, end := FieldPattern.FindField(reply, StartDate), FieldPattern.FindField(reply, EndDate);
      info[DaysBeforeExpireKey] != JNull ==>
        && start.Some? && end.Some?
        && Calendar.ParseDate(start.value).Some? && Calendar.ParseDate(end.value).Some?
        && info[DaysBeforeExpireKey] ==
             JNumber(Calendar.Ordinal(Calendar.ParseDate(end.value).value)
                     - Calendar.Ordinal(Calendar.ParseDate(start.value).value), 0)
  {
    ImageDaysEntry(reply);
    StoredDays(info, FieldPattern.FindField(reply, StartDate), FieldPattern.FindField(reply, EndDate));
  }

  /** A stored day count that is not null is end minus start of two dates that parse. */
  lemma StoredDays(info: map<string, Json>, start: Option<string>, end: Option<string>)
    requires DaysBeforeExpireKey in info && info[DaysBeforeExpireKey] == DaysJson(ExpiryDays(start, end))
    ensures info[DaysBeforeExpireKey] != JNull ==>
      && start.Some? && end.Some?
      && Calendar.ParseDate(start.value).Some? && Calendar.ParseDate(end.value).Some?
      && info[DaysBeforeExpireKey] ==
           JNumber(Calendar.Ordinal(Calendar.ParseDate(end.value).value)
                   - Calendar.Ordinal(Calendar.ParseDate(start.value).value), 0)
  {
  }

  /** The extractor as the source runs it: the pattern loop, then the date step. */
  method ExtractImageProductInfo(reply: string) returns (info: map<string, Json>)
    ensures info == ImageRecord(reply)
  {
    var fields := FieldPattern.RunPatterns(ImageInfoInit, reply, FieldPattern.FieldKeys, true);
    assert DaysBeforeExpireKey in fields && StartDate in fields && EndDate in fields;
    FieldPattern.ApplyPatternsEffect(ImageInfoInit, reply, FieldPattern.FieldKeys, true, StartDate);
    FieldPattern.ApplyPatternsEffect(ImageInfoInit, reply, FieldPattern.FieldKeys, true, EndDate);
    ExpiryDaysOfFields(FieldPattern.FindField(reply, StartDate), FieldPattern.FindField(reply, EndDate));
    FieldPattern.ApplyPatternsEffect(ImageInfoInit, reply, FieldPattern.FieldKeys, true, DaysBeforeExpireKey);
    info := StoreExpiryDays(fields);
    ghost var days := DaysJson(ExpiryDays(FieldPattern.FindField(reply, StartDate), FieldPattern.FindField(reply, EndDate)));
    assert info[DaysBeforeExpireKey] == days;
    UpdateOf(info, fields, DaysBeforeExpireKey);
  }

  /** Two maps that differ at most at `k` are one update apart. */
  lemma UpdateOf(a: map<string, Json>, b: map<string, Json>, k: string)
    requires a.Keys == b.Keys && k in a
    requires forall x :: x in b && x != k ==> a[x] == b[x]
    ensures a == b[k := a[k]]
  {
  }
}
