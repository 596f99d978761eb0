/**
 * The field patterns `"key":\s*"([^"]+)"` that both revisions of the image
 * extractor run with `re.search` over the model's reply, and the loop
 * that stores each capture under its key.
 */
module FieldPattern {

  import opened Wrappers
  import opened Json
  import Text

  /** The four keys of the `patterns` dictionary, in its insertion order. */
  const FieldKeys: seq<string> := ["product_name", "company", "start_date", "end_date"]

  /** The literal text `"key":` every pattern opens with. */
  function Opening(key: string): string
  {
    ['"'] + key + ['"', ':']
  }

  predicate StartsWith(s: string, p: string)
  {
    |p| <= |s| && s[..|p|] == p
  }

  /**
   * Reference reading of the pattern: `s` begins with `"key":`, then the
   * whitespace `w`, then `"`, the non-empty quote-free capture `v`, and `"`.
   */
  ghost predicate Occurs(s: string, key: string, w: string, v: string)
  {
    && StartsWith(s, Opening(key) + w + ['"'] + v + ['"'])
    && Text.AllSatisfy(w, Text.IsSpace)
    && v != []
    && '"' !in v
  }

  /** Length of the longest prefix of `s` made of whitespace (the greedy `\s*`). */
  function SpaceRun(s: string): (n: nat)
    ensures n <= |s| && Text.AllSatisfy(s[..n], Text.IsSpace)
    ensures n < |s| ==> !Text.IsSpace(s[n])
  {
    if s != [] && Text.IsSpace(s[0]) then
      var n := 1 + SpaceRun(s[1..]);
      assert s[..n] == [s[0]] + s[1..][..n - 1];
      n
    else 0
  }

  /** Length of the longest prefix of `s` without a double quote (the greedy `[^"]+`). */
  function QuoteFreeRun(s: string): (n: nat)
    ensures n <= |s| && '"' !in s[..n]
    ensures n < |s| ==> s[n] == '"'
  {
    if s != [] && s[0] != '"' then
      var n := 1 + QuoteFreeRun(s[1..]);
      assert s[..n] == [s[0]] + s[1..][..n - 1];
      n
    else 0
  }

  /**
   * The capture group when the pattern matches at the very start of `s`,
   * as the backtracking matcher finds it.  Neither quantifier can give
   * anything back: the character after `\s*` must be `"`, which is not
   * whitespace, and the one after `[^"]+` must be `"` as well.
   */
  function MatchHere(s: string, key: string): Option<string>
  {
    var o := Opening(key);
    if !StartsWith(s, o) then None
    else
      var rest := s[|o|..];
      var w := SpaceRun(rest);
      if w == |rest| || rest[w] != '"' then None
      else
        var body := rest[w + 1..];
        var n := QuoteFreeRun(body);
        if n == 0 || n == |body| then None else Some(body[..n])
  }

  /**
   * The matcher and the reference reading agree in both directions: the
   * pattern matches at the start of `s` with capture `v` exactly when `s`
   * begins with an occurrence whose capture is `v`.
   */
  lemma MatchHereIsOccurs(s: string, key: string, v: string)
    ensures MatchHere(s, key) == Some(v) <==> exists w :: Occurs(s, key, w, v)
  {
    if MatchHere(s, key) == Some(v) {
      MatchedOccurs(s, key, v);
    }
    if w :| Occurs(s, key, w, v) {
      OccursDetermined(s, key, w, v);
    }
  }

  /** A match at the start of `s` is an occurrence, its whitespace being the greedy run. */
  lemma MatchedOccurs(s: string, key: string, v: string)
    requires MatchHere(s, key) == Some(v)
    ensures var rest := s[|Opening(key)|..]; Occurs(s, key, rest[..SpaceRun(rest)], v)
  {
    MatchHereParts(s, key, v);
    var o := Opening(key);
    var rest := s[|o|..];
    var n := SpaceRun(rest);
    var w := rest[..n];
    assert rest[n..][1..] == rest[n + 1..];
    PrefixAfter(rest[n..], ['"'], v + ['"']);
    PrefixAfter(rest, w, ['"'] + (v + ['"']));
    PrefixAfter(s, o, w + (['"'] + (v + ['"'])));
    QuotedGrouping(o, w, v);
  }

  lemma QuotedGrouping(o: string, w: string, v: string)
    ensures o + (w + (['"'] + (v + ['"']))) == o + w + ['"'] + v + ['"']
  {
  }

  /** What a match at the start of `s` is made of, piece by piece. */
  lemma MatchHereParts(s: string, key: string, v: string)
    requires MatchHere(s, key) == Some(v)
    ensures StartsWith(s, Opening(key)) && v != [] && '"' !in v
    ensures var rest := s[|Opening(key)|..]; var n := SpaceRun(rest);
      && n < |rest| && rest[n] == '"' && StartsWith(rest[n + 1..], v + ['"'])
  {
    var rest := s[|Opening(key)|..];
    var body := rest[SpaceRun(rest) + 1..];
    assert body[..|v| + 1] == v + ['"'];
  }

  /** A text starting with `p` whose remainder starts with `q` starts with `p + q`. */
  lemma PrefixAfter(s: string, p: string, q: string)
    requires StartsWith(s, p) && StartsWith(s[|p|..], q)
    ensures StartsWith(s, p + q)
  {
    assert s[..|p| + |q|] == s[..|p|] + s[|p|..][..|q|];
  }

  lemma OccursDetermined(s: string, key: string, w: string, v: string)
    requires Occurs(s, key, w, v)
    ensures MatchHere(s, key) == Some(v)
  {
    var o := Opening(key);
    var t := o + w + ['"'] + v + ['"'];
    assert s[..|o|] == t[..|o|] == o;
    var rest := s[|o|..];
    assert rest[..|w|] == w;
    assert rest[|w|] == '"';
    SpaceRunStopsAt(rest, w);
    var n := SpaceRun(rest);
    var body := rest[n + 1..];
    var p := |o| + |w| + 1;
    assert s[..|t|] == t;
    assert t[p..p + |v|] == v && t[p + |v|] == '"';
    assert body[..|v|] == s[p..p + |v|];
    assert body[..|v|] == v && body[|v|] == '"';
    QuoteFreeRunStopsAt(body, v);
  }

  lemma {:induction false} SpaceRunStopsAt(s: string, w: string)
    requires StartsWith(s, w) && Text.AllSatisfy(w, Text.IsSpace)
    requires |w| < |s| && !Text.IsSpace(s[|w|])
    ensures SpaceRun(s) == |w|
  {
    if w != [] {
      assert s[1..][..|w| - 1] == w[1..];
      SpaceRunStopsAt(s[1..], w[1..]);
    }
  }

  lemma {:induction false} QuoteFreeRunStopsAt(s: string, v: string)
    requires StartsWith(s, v) && '"' !in v
    requires |v| < |s| && s[|v|] == '"'
    ensures QuoteFreeRun(s) == |v|
  {
    if v != [] {
      assert s[1..][..|v| - 1] == v[1..];
      QuoteFreeRunStopsAt(s[1..], v[1..]);
    }
  }

  /** The pattern matches at no position before `i`. */
  predicate NoMatchBefore(reply: string, key: string, i: int)
    requires i <= |reply| + 1
  {
    forall j :: 0 <= j < i ==> MatchHere(reply[j..], key).None?
  }

  /**
   * `re.search(pattern, reply)` followed by `match.group(1)`: the capture
   * of the leftmost position where the pattern matches, or None.
   */
  function FindField(reply: string, key: string): (r: Option<string>)
    ensures r.Some? ==> r.value != [] && '"' !in r.value
    ensures r.Some? ==> exists i :: 0 <= i < |reply| && MatchHere(reply[i..], key) == r && NoMatchBefore(reply, key, i)
    ensures r.None? ==> NoMatchBefore(reply, key, |reply| + 1)
  {
    if reply == [] then None
    else
      match MatchHere(reply, key)
      case Some(v) =>
        assert reply[0..] == reply;
        MatchHereParts(reply, key, v);
        Some(v)
      case None =>
        var r := FindField(reply[1..], key);
        FindFieldStep(reply, key, r);
        r
  }

  /** A result about `reply[1..]` is one about `reply` when nothing matches at position 0. */
  lemma FindFieldStep(reply: string, key: string, r: Option<string>)
    requires reply != [] && MatchHere(reply, key).None?
    requires r.Some? ==> exists i :: 0 <= i < |reply[1..]| && MatchHere(reply[1..][i..], key) == r && NoMatchBefore(reply[1..], key, i)
    requires r.None? ==> NoMatchBefore(reply[1..], key, |reply[1..]| + 1)
    ensures r.Some? ==> exists i :: 0 <= i < |reply| && MatchHere(reply[i..], key) == r && NoMatchBefore(reply, key, i)
    ensures r.None? ==> NoMatchBefore(reply, key, |reply| + 1)
  {
    if r.Some? {
      var i :| 0 <= i < |reply[1..]| && MatchHere(reply[1..][i..], key) == r && NoMatchBefore(reply[1..], key, i);
      assert reply[i + 1..] == reply[1..][i..];
      NoMatchShift(reply, key, i);
    } else {
      NoMatchShift(reply, key, |reply|);
    }
  }

  lemma NoMatchShift(reply: string, key: string, i: nat)
    requires reply != [] && MatchHere(reply, key).None?
    requires i <= |reply| && NoMatchBefore(reply[1..], key, i)
    ensures NoMatchBefore(reply, key, i + 1)
  {
    forall j | 0 <= j < i + 1
      ensures MatchHere(reply[j..], key).None?
    {
      if j > 0 {
        assert reply[j..] == reply[1..][j - 1..];
      }
    }
  }

  /** A capture is one of the occurrences the reference reading describes. */
  lemma FoundIsOccurrence(reply: string, key: string)
    requires FindField(reply, key).Some?
    ensures exists i, w :: 0 <= i < |reply| && Occurs(reply[i..], key, w, FindField(reply, key).value)
  {
    var v := FindField(reply, key).value;
    var i :| 0 <= i < |reply| && MatchHere(reply[i..], key) == Some(v);
    MatchHereIsOccurs(reply[i..], key, v);
  }

  /**
   * The value the loop stores for `key`: the capture when the pattern
   * matches; otherwise `None` when the loop has an `else` branch that
   * clears the entry (`clearOnMiss`), the earlier value when it has none.
   */
  function FieldValue(reply: string, key: string, previous: Json, clearOnMiss: bool): Json
  {
    match FindField(reply, key)
    case Some(c) => JString(c)
    case None => if clearOnMiss then JNull else previous
  }

  /** One turn of the loop: `product_info[key]` updated from the reply. */
  function Assign(info: map<string, Json>, reply: string, key: string, clearOnMiss: bool): map<string, Json>
    requires key in info
  {
    info[key := FieldValue(reply, key, info[key], clearOnMiss)]
  }

  /** The loop run over `keys` in the given order. */
  function ApplyPatterns(info: map<string, Json>, reply: string, keys: seq<string>, clearOnMiss: bool): (r: map<string, Json>)
    requires forall k :: k in keys ==> k in info
    ensures r.Keys == info.Keys
  {
    if keys == [] then info
    else ApplyPatterns(Assign(info, reply, keys[0], clearOnMiss), reply, keys[1..], clearOnMiss)
  }

  /** The outcome of the loop, described without any order: every key in `ks` updated. */
  function Overlay(info: map<string, Json>, reply: string, ks: set<string>, clearOnMiss: bool): (r: map<string, Json>)
    ensures r.Keys == info.Keys
    ensures forall k :: k in info && k !in ks ==> r[k] == info[k]
  {
    map k | k in info :: if k in ks then FieldValue(reply, k, info[k], clearOnMiss) else info[k]
  }

  /** One more key in the processed set is one more turn of the loop. */
  lemma OverlayAssign(info: map<string, Json>, reply: string, ks: set<string>, key: string, clearOnMiss: bool)
    requires key in info
    ensures Assign(Overlay(info, reply, ks, clearOnMiss), reply, key, clearOnMiss)
            == Overlay(info, reply, ks + {key}, clearOnMiss)
  {
    var lhs := Assign(Overlay(info, reply, ks, clearOnMiss), reply, key, clearOnMiss);
    var rhs := Overlay(info, reply, ks + {key}, clearOnMiss);
    forall k | k in lhs
      ensures lhs[k] == rhs[k]
    {
      OverlayAssignAt(info, reply, ks, key, clearOnMiss, k);
    }
    SameEntries(lhs, rhs);
  }

  lemma OverlayAssignAt(info: map<string, Json>, reply: string, ks: set<string>, key: string, clearOnMiss: bool, k: string)
    requires key in info && k in info
    ensures Assign(Overlay(info, reply, ks, clearOnMiss), reply, key, clearOnMiss)[k]
            == Overlay(info, reply, ks + {key}, clearOnMiss)[k]
  {
    if k == key {
      FieldValueAgain(reply, k, info[k], clearOnMiss);
    }
  }

  /** Storing a field a second time changes nothing. */
  lemma FieldValueAgain(reply: string, key: string, previous: Json, clearOnMiss: bool)
    ensures FieldValue(reply, key, FieldValue(reply, key, previous, clearOnMiss), clearOnMiss)
            == FieldValue(reply, key, previous, clearOnMiss)
  {
  }

  /** Updating `key` first and the keys `ks` afterwards updates `{key} + ks`. */
  lemma AssignThenOverlay(info: map<string, Json>, reply: string, ks: set<string>, key: string, clearOnMiss: bool)
    requires key in info
    ensures Overlay(Assign(info, reply, key, clearOnMiss), reply, ks, clearOnMiss)
            == Overlay(info, reply, {key} + ks, clearOnMiss)
  {
    var lhs := Overlay(Assign(info, reply, key, clearOnMiss), reply, ks, clearOnMiss);
    var rhs := Overlay(info, reply, {key} + ks, clearOnMiss);
    forall k | k in lhs
      ensures lhs[k] == rhs[k]
    {
      AssignThenOverlayAt(info, reply, ks, key, clearOnMiss, k);
    }
    SameEntries(lhs, rhs);
  }

  /** Two records with the same keys and the same value at each key are equal. */
  lemma SameEntries(a: map<string, Json>, b: map<string, Json>)
    requires a.Keys == b.Keys && forall k :: k in a ==> a[k] == b[k]
    ensures a == b
  {
  }

  lemma AssignThenOverlayAt(info: map<string, Json>, reply: string, ks: set<string>, key: string, clearOnMiss: bool, k: string)
    requires key in info && k in info
    ensures Overlay(Assign(info, reply, key, clearOnMiss), reply, ks, clearOnMiss)[k]
            == Overlay(info, reply, {key} + ks, clearOnMiss)[k]
  {
    var next := Assign(info, reply, key, clearOnMiss);
    if k == key {
      FieldValueAgain(reply, k, info[k], clearOnMiss);
    } else {
      assert next[k] == info[k];
    }
  }

  lemma OverlayNothing(info: map<string, Json>, reply: string, clearOnMiss: bool)
    ensures Overlay(info, reply, {}, clearOnMiss) == info
  {
  }

  /** The keys listed in `keys`. */
  function KeySet(keys: seq<string>): set<string>
  {
    set k | k in keys
  }

  lemma KeySetSnoc(keys: seq<string>, i: nat)
    requires i < |keys|
    ensures KeySet(keys[..i + 1]) == KeySet(keys[..i]) + {keys[i]}
  {
    assert keys[..i + 1] == keys[..i] + [keys[i]];
  }

  lemma KeySetCons(keys: seq<string>)
    requires keys != []
    ensures KeySet(keys) == {keys[0]} + KeySet(keys[1..])
  {
    assert keys == [keys[0]] + keys[1..];
  }

  /** Running the loop over `keys` sets each key in `keys` and no other. */
  lemma {:induction false} ApplyPatternsIsOverlay(info: map<string, Json>, reply: string, keys: seq<string>, clearOnMiss: bool)
    requires forall k :: k in keys ==> k in info
    ensures ApplyPatterns(info, reply, keys, clearOnMiss) == Overlay(info, reply, KeySet(keys), clearOnMiss)
    decreases |keys|
  {
    if keys == [] {
      OverlayNothing(info, reply, clearOnMiss);
    } else {
      var next := Assign(info, reply, keys[0], clearOnMiss);
      assert forall k :: k in keys[1..] ==> k in keys;
      ApplyPatternsIsOverlay(next, reply, keys[1..], clearOnMiss);
      KeySetCons(keys);
      AssignThenOverlay(info, reply, KeySet(keys[1..]), keys[0], clearOnMiss);
    }
  }

  /**
   * After the loop, each key of `keys` holds its capture when its pattern
   * matches; on a miss it is None when the loop clears it and keeps its
   * old value otherwise.  Every other entry is what it was.
   */
  lemma ApplyPatternsEffect(info: map<string, Json>, reply: string, keys: seq<string>, clearOnMiss: bool, k: string)
    requires forall k :: k in keys ==> k in info
    requires k in info
    ensures k in keys ==> ApplyPatterns(info, reply, keys, clearOnMiss)[k] == FieldValue(reply, k, info[k], clearOnMiss)
    ensures k in keys && FindField(reply, k).Some? ==>
              ApplyPatterns(info, reply, keys, clearOnMiss)[k] == JString(FindField(reply, k).value)
    ensures k in keys && FindField(reply, k).None? ==>
              ApplyPatterns(info, reply, keys, clearOnMiss)[k] == if clearOnMiss then JNull else info[k]
    ensures k !in keys ==> ApplyPatterns(info, reply, keys, clearOnMiss)[k] == info[k]
  {
    ApplyPatternsIsOverlay(info, reply, keys, clearOnMiss);
  }

  /**
   * The `for key, pattern in patterns.items()` loop: `re.search` for each
   * key in turn, storing the capture on a match and, when `clearOnMiss`,
   * None otherwise.
   */
  method RunPatterns(start: map<string, Json>, reply: string, keys: seq<string>, clearOnMiss: bool)
    returns (info: map<string, Json>)
    requires forall k :: k in keys ==> k in start
    ensures info == ApplyPatterns(start, reply, keys, clearOnMiss)
  {
    info := start;
    var i := 0;
    while i < |keys|
      invariant 0 <= i <= |keys|
      invariant info == Overlay(start, reply, KeySet(keys[..i]), clearOnMiss)
    {
      var key := keys[i];
      OverlayAssign(start, reply, KeySet(keys[..i]), key, clearOnMiss);
      KeySetSnoc(keys, i);
      var found := FindField(reply, key);
      if found.Some? {
        info := info[key := JString(found.value)];
      } else if clearOnMiss {
        info := info[key := JNull];
      }
      i := i + 1;
    }
    assert keys[..i] == keys;
    ApplyPatternsIsOverlay(start, reply, keys, clearOnMiss);
  }

  /**
   * Starting from a record whose pattern keys are all None, a loop that
   * leaves a key alone on a miss and one that clears it end the same.
   */
  lemma ClearOnMissIrrelevantFromNull(info: map<string, Json>, reply: string, keys: seq<string>)
    requires forall k :: k in keys ==> k in info && info[k] == JNull
    ensures ApplyPatterns(info, reply, keys, false) == ApplyPatterns(info, reply, keys, true)
  {
    ApplyPatternsIsOverlay(info, reply, keys, false);
    ApplyPatternsIsOverlay(info, reply, keys, true);
    assert Overlay(info, reply, KeySet(keys), false) == Overlay(info, reply, KeySet(keys), true);
  }

  /**
   * Each pattern only reads the reply and writes its own key, so the order
   * in which the keys are visited does not matter.
   */
  lemma PatternOrderIrrelevant(info: map<string, Json>, reply: string, keys1: seq<string>, keys2: seq<string>, clearOnMiss: bool)
    requires forall k :: k in keys1 ==> k in info
    requires forall k :: k in keys1 <==> k in keys2
    ensures ApplyPatterns(info, reply, keys1, clearOnMiss) == ApplyPatterns(info, reply, keys2, clearOnMiss)
  {
    ApplyPatternsIsOverlay(info, reply, keys1, clearOnMiss);
    ApplyPatternsIsOverlay(info, reply, keys2, clearOnMiss);
    assert KeySet(keys1) == KeySet(keys2);
  }
}
