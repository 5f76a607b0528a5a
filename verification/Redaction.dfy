/** The redaction of audit.go: text under a prompt-like key is replaced by its hash and length.  The
    JSON codec and the hash are parameters. */
module Redaction {
  import opened Text

  datatype Json =
    | Null
    | Bool(b: bool)
    | Num(n: int)
    | Str(s: string)
    | Arr(items: seq<Json>)
    | Obj(fields: map<string, Json>)

  /** What the libraries do: the canonical encoding, and the hash in hexadecimal. */
  datatype Codec = Codec(encode: Json -> string, hash: string -> string)

  predicate RedactedKey(k: string) {
    var l := Lower(k);
    Index(l, "prompt") >= 0 || Index(l, "completion") >= 0 || l == "messages"
  }

  /** There is a string somewhere in `v`. */
  predicate Carries(v: Json) {
    match v
    case Str(_) => true
    case Arr(items) => exists k :: 0 <= k < |items| && Carries(items[k])
    case Obj(fields) => exists k :: k in fields && Carries(fields[k])
    case _ => false
  }

  function TextOf(c: Codec, v: Json): string { if v.Str? then v.s else c.encode(v) }

  function Digest(c: Codec, v: Json): Json {
    var b := TextOf(c, v);
    Obj(map["sha256" := Str(c.hash(b)), "len" := Num(|b|)])
  }

  predicate Hidden(k: string, v: Json) { RedactedKey(k) && Carries(v) }

  function Redact(c: Codec, v: Json): Json {
    match v
    case Arr(items) => Arr(seq(|items|, k requires 0 <= k < |items| => Redact(c, items[k])))
    case Obj(fields) => Obj(map k | k in fields :: if Hidden(k, fields[k]) then Digest(c, fields[k]) else Redact(c, fields[k]))
    case _ => v
  }

  /** Something in `v` gets redacted. */
  predicate Changes(v: Json) {
    match v
    case Arr(items) => exists k :: 0 <= k < |items| && Changes(items[k])
    case Obj(fields) => exists k :: k in fields && (Hidden(k, fields[k]) || Changes(fields[k]))
    case _ => false
  }

  // ----- the walks

  method CarriesText(v: Json) returns (text: bool)
    ensures text == Carries(v)
    decreases v
  {
    match v {
      case Str(_) => text := true;
      case Obj(fields) =>
        var left := fields.Keys;
        while left != {}
          invariant left <= fields.Keys
          invariant forall k :: k in fields && k !in left ==> !Carries(fields[k])
          decreases left
        {
          var k :| k in left;
          var found := CarriesText(fields[k]);
          if found {
            return true;
          }
          left := left - {k};
        }
        text := false;
      case Arr(items) =>
        var i := 0;
        while i < |items|
          invariant 0 <= i <= |items|
          invariant forall k :: 0 <= k < i ==> !Carries(items[k])
        {
          var found := CarriesText(items[i]);
          if found {
            return true;
          }
          i := i + 1;
        }
        text := false;
      case _ => text := false;
    }
  }

  /** The value with its entries overwritten, and whether any was. */
  method RedactValue(c: Codec, v: Json) returns (out: Json, changed: bool)
    ensures out == Redact(c, v) && changed == Changes(v)
    ensures !changed ==> out == v
    decreases v, 1
  {
    match v {
      case Obj(fields) =>
        var t;
        t, changed := RedactFields(c, v, fields);
        out := Obj(t);
      case Arr(items) =>
        var t;
        t, changed := RedactItems(c, v, items);
        out := Arr(t);
      case _ => out, changed := v, false;
    }
    if !changed {
      UnchangedIsSame(c, v);
    }
  }

  function Field(c: Codec, k: string, v: Json): Json { if Hidden(k, v) then Digest(c, v) else Redact(c, v) }

  method RedactFields(c: Codec, v: Json, fields: map<string, Json>) returns (t: map<string, Json>, changed: bool)
    requires v == Obj(fields)
    ensures Obj(t) == Redact(c, v) && changed == Changes(v)
    decreases v, 0
  {
    hide Redact, Changes, Digest, Field, ShowsAt;
    t, changed := fields, false;
    var left := fields.Keys;
    while left != {}
      invariant left <= fields.Keys && t.Keys == fields.Keys
      invariant forall k :: k in left ==> t[k] == fields[k]
      invariant forall k :: k in fields && k !in left ==> t[k] == Field(c, k, fields[k])
      invariant changed <==> exists k :: k in fields && k !in left && ShowsAt(k, fields[k])
      decreases left
    {
      var k :| k in left;
      var r, ch := RedactField(c, k, fields[k]);
      if ch {
        t, changed := t[k := r], true;
      }
      left := left - {k};
    }
    FieldsRedacted(c, fields, t);
  }

  method RedactField(c: Codec, k: string, v: Json) returns (out: Json, changed: bool)
    ensures out == Field(c, k, v) && changed == ShowsAt(k, v)
    ensures !changed ==> out == v
    decreases v, 2
  {
    hide Redact, Changes, Digest, Carries, RedactedKey;
    var text := CarriesText(v);
    if RedactedKey(k) && text {
      return Digest(c, v), true;
    }
    out, changed := RedactValue(c, v);
  }

  /** There is something to redact in field `k` with value `v`. */
  predicate ShowsAt(k: string, v: Json) { Hidden(k, v) || Changes(v) }

  lemma FieldsRedacted(c: Codec, fields: map<string, Json>, t: map<string, Json>)
    requires t.Keys == fields.Keys && forall k :: k in fields ==> t[k] == Field(c, k, fields[k])
    ensures Obj(t) == Redact(c, Obj(fields))
    ensures Changes(Obj(fields)) <==> exists k :: k in fields && ShowsAt(k, fields[k])
  {
    hide Hidden, Digest;
    assert t == Redact(c, Obj(fields)).fields;
  }

  method RedactItems(c: Codec, v: Json, items: seq<Json>) returns (t: seq<Json>, changed: bool)
    requires v == Arr(items)
    ensures Arr(t) == Redact(c, v) && changed == Changes(v)
    decreases v, 0
  {
    hide Redact, Changes;
    t, changed := items, false;
    var i := 0;
    while i < |items|
      invariant 0 <= i <= |items| == |t|
      invariant forall k :: i <= k < |items| ==> t[k] == items[k]
      invariant forall k :: 0 <= k < i ==> t[k] == Redact(c, items[k])
      invariant changed <==> exists k :: 0 <= k < i && Changes(items[k])
    {
      var r, ch := RedactValue(c, items[i]);
      if ch {
        t, changed := t[i := r], true;
      }
      i := i + 1;
    }
    ItemsRedacted(c, items, t);
  }

  lemma ItemsRedacted(c: Codec, items: seq<Json>, t: seq<Json>)
    requires |t| == |items| && forall k :: 0 <= k < |items| ==> t[k] == Redact(c, items[k])
    ensures Arr(t) == Redact(c, Arr(items))
    ensures Changes(Arr(items)) <==> exists k :: 0 <= k < |items| && Changes(items[k])
  {
    assert t == Redact(c, Arr(items)).items;
  }

  method RedactPayload(c: Codec, parse: string -> Option<Json>, raw: string) returns (out: string)
    ensures out == match parse(raw)
                   case Some(v) => if raw != "" && Changes(v) then c.encode(Redact(c, v)) else raw
                   case None => raw
  {
    if raw == "" {
      return raw;
    }
    var v := parse(raw);
    if v == None {
      return raw;
    }
    var r, changed := RedactValue(c, v.value);
    out := if changed then c.encode(r) else raw;
  }

  // ----- what is hidden, and what is not

  /** Nothing to redact, nothing changed: counts and flags under a prompt key come through. */
  lemma {:induction false} UnchangedIsSame(c: Codec, v: Json)
    requires !Changes(v)
    ensures Redact(c, v) == v
  {
    match v
    case Arr(items) =>
      forall k | 0 <= k < |items| ensures Redact(c, items[k]) == items[k] {
        UnchangedIsSame(c, items[k]);
      }
      assert Redact(c, v).items == items;
    case Obj(fields) =>
      forall k | k in fields ensures Redact(c, fields[k]) == fields[k] && !Hidden(k, fields[k]) {
        UnchangedIsSame(c, fields[k]);
      }
      assert Redact(c, v).fields == fields;
    case _ =>
  }

  /** A value with no text in it has nothing to redact. */
  lemma {:induction false} NoTextNoChange(v: Json)
    requires !Carries(v)
    ensures !Changes(v)
  {
    match v
    case Arr(items) =>
      forall k | 0 <= k < |items| ensures !Changes(items[k]) {
        NoTextNoChange(items[k]);
      }
    case Obj(fields) =>
      forall k | k in fields ensures !Changes(fields[k]) && !Carries(fields[k]) {
        NoTextNoChange(fields[k]);
      }
    case _ =>
  }

  lemma DigestCarries(c: Codec, v: Json)
    ensures Carries(Digest(c, v))
  {
    assert Carries(Digest(c, v).fields["sha256"]);
  }

  /** Redacting neither adds text nor takes the last of it away. */
  lemma {:induction false} RedactKeepsCarries(c: Codec, v: Json)
    ensures Carries(Redact(c, v)) <==> Carries(v)
  {
    match v
    case Arr(items) =>
      var r := Redact(c, v).items;
      forall k | 0 <= k < |items| ensures Carries(r[k]) <==> Carries(items[k]) {
        RedactKeepsCarries(c, items[k]);
      }
      assert Carries(v) ==> exists k :: 0 <= k < |r| && Carries(r[k]);
    case Obj(fields) =>
      var r := Redact(c, v).fields;
      forall k | k in fields ensures Carries(r[k]) <==> Carries(fields[k]) {
        if Hidden(k, fields[k]) {
          DigestCarries(c, fields[k]);
        } else {
          RedactKeepsCarries(c, fields[k]);
        }
      }
      assert Carries(v) ==> exists k :: k in r && Carries(r[k]);
    case _ =>
  }

  /** The bytes a value stands for, the string itself or the value's encoding, have one hash and one
      length. */
  predicate SameTrace(c: Codec, v: Json, w: Json) {
    var a := match v case Str(s) => s case _ => c.encode(v);
    var b := match w case Str(s) => s case _ => c.encode(w);
    c.hash(a) == c.hash(b) && |a| == |b|
  }

  lemma DigestIsTheTrace(c: Codec, v: Json, w: Json)
    ensures Digest(c, v) == Digest(c, w) <==> SameTrace(c, v, w)
  {
    var d, e := Digest(c, v).fields, Digest(c, w).fields;
    if Digest(c, v) == Digest(c, w) {
      assert d["sha256"] == e["sha256"] && d["len"] == e["len"];
    }
  }

  /** The same but for hidden text, and that of the same length and hash. */
  predicate Alike(c: Codec, v: Json, w: Json)
    decreases v
  {
    match v
    case Arr(items) =>
      w.Arr? && |w.items| == |items| && forall k :: 0 <= k < |items| ==> Alike(c, items[k], w.items[k])
    case Obj(fields) =>
      w.Obj? && w.fields.Keys == fields.Keys
      && forall k :: k in fields ==>
           (Hidden(k, fields[k]) <==> Hidden(k, w.fields[k]))
           && if Hidden(k, fields[k]) then SameTrace(c, fields[k], w.fields[k]) else Alike(c, fields[k], w.fields[k])
    case _ => w == v
  }

  /** What a redacted payload tells: two payloads are redacted to the same exactly when they differ, if
      at all, in text under a prompt key, and there only within one length and hash.  So no other
      trace of that text is left, and nothing else is lost. */
  lemma {:induction false} RedactionHidesExactly(c: Codec, v: Json, w: Json)
    ensures Redact(c, v) == Redact(c, w) <==> Alike(c, v, w)
    decreases v, 1
  {
    match v
    case Arr(items) =>
      if w.Arr? && |w.items| == |items| {
        ItemsHideExactly(c, items, w.items);
      } else if w.Arr? {
        assert |Redact(c, v).items| == |items| && |Redact(c, w).items| == |w.items|;
      }
    case Obj(fields) =>
      if w.Obj? && w.fields.Keys == fields.Keys {
        FieldsHideExactly(c, fields, w.fields);
      } else if w.Obj? {
        assert Redact(c, v).fields.Keys == fields.Keys && Redact(c, w).fields.Keys == w.fields.Keys;
      }
    case _ =>
  }

  lemma {:induction false} ItemsHideExactly(c: Codec, a: seq<Json>, b: seq<Json>)
    requires |a| == |b|
    ensures Redact(c, Arr(a)) == Redact(c, Arr(b)) <==> Alike(c, Arr(a), Arr(b))
    decreases Arr(a), 0
  {
    var r, s := Redact(c, Arr(a)).items, Redact(c, Arr(b)).items;
    forall k | 0 <= k < |a| ensures r[k] == s[k] <==> Alike(c, a[k], b[k]) {
      RedactionHidesExactly(c, a[k], b[k]);
    }
    assert r == s <==> forall k :: 0 <= k < |a| ==> r[k] == s[k];
  }

  lemma {:induction false} FieldsHideExactly(c: Codec, a: map<string, Json>, b: map<string, Json>)
    requires a.Keys == b.Keys
    ensures Redact(c, Obj(a)) == Redact(c, Obj(b)) <==> Alike(c, Obj(a), Obj(b))
    decreases Obj(a), 0
  {
    hide Field, AlikeAt;
    forall k | k in a ensures Field(c, k, a[k]) == Field(c, k, b[k]) <==> AlikeAt(c, k, a[k], b[k]) {
      FieldHidesExactly(c, k, a[k], b[k]);
    }
    FieldsAgree(c, a, b);
    FieldsAlike(c, a, b);
  }

  lemma FieldsAgree(c: Codec, a: map<string, Json>, b: map<string, Json>)
    requires a.Keys == b.Keys
    ensures Redact(c, Obj(a)) == Redact(c, Obj(b)) <==> forall k :: k in a ==> Field(c, k, a[k]) == Field(c, k, b[k])
  {
    hide Hidden, Digest;
    var r, s := Redact(c, Obj(a)).fields, Redact(c, Obj(b)).fields;
    assert forall k :: k in a ==> r[k] == Field(c, k, a[k]) && s[k] == Field(c, k, b[k]);
    if forall k :: k in a ==> Field(c, k, a[k]) == Field(c, k, b[k]) {
      assert r == s;
    }
  }

  lemma FieldsAlike(c: Codec, a: map<string, Json>, b: map<string, Json>)
    requires a.Keys == b.Keys
    ensures Alike(c, Obj(a), Obj(b)) <==> forall k :: k in a ==> AlikeAt(c, k, a[k], b[k])
  {
    hide Hidden, Digest;
  }

  predicate AlikeAt(c: Codec, k: string, v: Json, w: Json) {
    && (Hidden(k, v) <==> Hidden(k, w))
    && if Hidden(k, v) then SameTrace(c, v, w) else Alike(c, v, w)
  }

  lemma {:induction false} FieldHidesExactly(c: Codec, k: string, v: Json, w: Json)
    ensures Field(c, k, v) == Field(c, k, w) <==> AlikeAt(c, k, v, w)
    decreases v, 2
  {
    hide Carries, Redact, Digest, Alike, RedactedKey, SameTrace;
    DigestIsTheTrace(c, v, w);
    DigestCarries(c, v);
    DigestCarries(c, w);
    RedactKeepsCarries(c, v);
    RedactKeepsCarries(c, w);
    RedactionHidesExactly(c, v, w);
  }

  /** Redacting again hashes the hashes: the second pass is never a no-op when the first was not. */
  lemma {:induction false} RedactingTwiceShows(c: Codec, v: Json)
    ensures Changes(Redact(c, v)) <==> Changes(v)
    decreases v, 0
  {
    match v
    case Arr(items) =>
      var r := Redact(c, v).items;
      forall k | 0 <= k < |items| ensures Changes(r[k]) <==> Changes(items[k]) {
        RedactingTwiceShows(c, items[k]);
      }
      assert Changes(v) ==> exists k :: 0 <= k < |r| && Changes(r[k]);
    case Obj(fields) =>
      hide Redact, Changes, ShowsAt, Field;
      var r := map k | k in fields :: Field(c, k, fields[k]);
      FieldsRedacted(c, fields, r);
      forall k | k in fields ensures ShowsAt(k, r[k]) <==> ShowsAt(k, fields[k]) {
        FieldShowsTwice(c, k, fields[k]);
      }
      FieldsChange(r);
    case _ =>
  }

  lemma {:induction false} FieldShowsTwice(c: Codec, k: string, v: Json)
    ensures ShowsAt(k, Field(c, k, v)) <==> ShowsAt(k, v)
    decreases v, 1
  {
    hide Redact, Changes, Digest, Carries, RedactedKey;
    if Hidden(k, v) {
      DigestCarries(c, v);
    } else {
      RedactKeepsCarries(c, v);
      RedactingTwiceShows(c, v);
    }
  }

  lemma FieldsChange(fields: map<string, Json>)
    ensures Changes(Obj(fields)) <==> exists k :: k in fields && ShowsAt(k, fields[k])
  {
    hide Hidden;
  }

  // ----- what is written in the place of hidden text

  /** `x` reads as the lower-case `word`, up to case. */
  predicate ReadsAs(x: string, word: string) {
    && |x| == |word|
    && forall i :: 0 <= i < |x| ==> x[i] == word[i] || ('A' <= x[i] <= 'Z' && x[i] as int + 32 == word[i] as int)
  }

  predicate ReadsAt(k: string, i: nat, word: string) { i + |word| <= |k| && ReadsAs(k[i..i + |word|], word) }

  ghost predicate ReadsInside(k: string, word: string) { exists i: nat :: ReadsAt(k, i, word) }

  lemma LowerReads(x: string, word: string)
    requires forall i :: 0 <= i < |word| ==> 'a' <= word[i] <= 'z'
    ensures Lower(x) == word <==> ReadsAs(x, word)
  {
    if Lower(x) == word {
      assert forall i :: 0 <= i < |x| ==> LowerChar(x[i]) == word[i];
    }
  }

  lemma LowerReadsInside(k: string, word: string)
    requires forall i :: 0 <= i < |word| ==> 'a' <= word[i] <= 'z'
    ensures Index(Lower(k), word) >= 0 <==> ReadsInside(k, word)
  {
    hide Index, OccursAt, ReadsAt;
    forall i: nat ensures OccursAt(Lower(k), word, i) <==> ReadsAt(k, i, word) {
      LowerOccurs(k, i, word);
    }
    if Index(Lower(k), word) >= 0 {
      var i: nat := Index(Lower(k), word);
      assert ReadsAt(k, i, word);
    }
  }

  lemma LowerOccurs(k: string, i: nat, word: string)
    requires forall j :: 0 <= j < |word| ==> 'a' <= word[j] <= 'z'
    ensures OccursAt(Lower(k), word, i) <==> ReadsAt(k, i, word)
  {
    LowerOfSlice(k, 0, 0);
    hide Lower, ReadsAs;
    if i + |word| <= |k| {
      LowerOfSlice(k, i, i + |word|);
      LowerReads(k[i..i + |word|], word);
    }
  }

  lemma LowerOfSlice(k: string, i: nat, j: nat)
    requires i <= j <= |k|
    ensures |Lower(k)| == |k| && Lower(k)[i..j] == Lower(k[i..j])
  {
  }

  /** The keys whose text is hidden: those with "prompt" or "completion" in them, and "messages",
      whatever the case. */
  lemma RedactedKeyIff(k: string)
    ensures RedactedKey(k) <==> ReadsInside(k, "prompt") || ReadsInside(k, "completion") || ReadsAs(k, "messages")
  {
    LowerReadsInside(k, "prompt");
    LowerReadsInside(k, "completion");
    LowerReads(k, "messages");
    hide Index, Lower, ReadsInside, ReadsAs;
  }

  /** The value at the end of a path of array indices and field names. */
  datatype Hop = Item(i: nat) | Name(k: string)

  function Under(v: Json, path: seq<Hop>): Option<Json> {
    if path == [] then Some(v)
    else
      match (v, path[0])
      case (Arr(items), Item(i)) => if i < |items| then Under(items[i], path[1..]) else None
      case (Obj(fields), Name(k)) => if k in fields then Under(fields[k], path[1..]) else None
      case _ => None
  }

  ghost predicate StringInside(v: Json) { exists path :: Under(v, path).Some? && Under(v, path).value.Str? }

  lemma {:induction false} PathCarries(v: Json, path: seq<Hop>)
    requires Under(v, path).Some? && Under(v, path).value.Str?
    ensures Carries(v)
    decreases path
  {
    if path != [] {
      match (v, path[0])
      case (Arr(items), Item(i)) => PathCarries(items[i], path[1..]);
      case (Obj(fields), Name(k)) => PathCarries(fields[k], path[1..]);
    }
  }

  lemma {:induction false} CarriesHasPath(v: Json) returns (path: seq<Hop>)
    requires Carries(v)
    ensures Under(v, path).Some? && Under(v, path).value.Str?
    decreases v
  {
    match v
    case Str(_) => path := [];
    case Arr(items) =>
      var k :| 0 <= k < |items| && Carries(items[k]);
      var rest := CarriesHasPath(items[k]);
      path := [Item(k)] + rest;
      assert path[1..] == rest;
    case Obj(fields) =>
      var k :| k in fields && Carries(fields[k]);
      var rest := CarriesHasPath(fields[k]);
      path := [Name(k)] + rest;
      assert path[1..] == rest;
  }

  /** A value carries text exactly when some path in it ends in a string. */
  lemma CarriesIff(v: Json)
    ensures Carries(v) <==> StringInside(v)
  {
    if Carries(v) {
      var path := CarriesHasPath(v);
    }
    if StringInside(v) {
      var path :| Under(v, path).Some? && Under(v, path).value.Str?;
      PathCarries(v, path);
    }
  }

  /** In the place of hidden text stand its hash and its length in bytes, and nothing else. */
  lemma HiddenFieldIs(c: Codec, fields: map<string, Json>, k: string)
    requires k in fields && StringInside(fields[k])
    requires ReadsInside(k, "prompt") || ReadsInside(k, "completion") || ReadsAs(k, "messages")
    ensures var bytes := match fields[k] case Str(s) => s case _ => c.encode(fields[k]);
            var r := Redact(c, Obj(fields));
            && r.Obj? && k in r.fields
            && r.fields[k] == Obj(map["sha256" := Str(c.hash(bytes)), "len" := Num(|bytes|)])
  {
    hide Carries, RedactedKey, ReadsInside, ReadsAs, StringInside;
    CarriesIff(fields[k]);
    RedactedKeyIff(k);
  }
}
