/**
 * `fixHex`: the pass over a parsed JSON schema that turns the daemon's own
 * scalar type names into JSON Schema ones and drops deprecated parts.
 *
 * The schema is a tree (it comes straight from `JSON.parse`), so it is
 * modelled as a value; an object is its members in key order, with
 * distinct keys as `JSON.parse` makes them.
 */
module SchemaFix {

  datatype Json =
    | JNull
    | JBool(b: bool)
    | JNum(n: real)
    | JStr(s: string)
    | JArr(elems: seq<Json>)
    | JObj(members: seq<Member>)

  datatype Member = Member(key: string, value: Json)

  /** Tags that become `"string"`. */
  const StringTags: set<string> := {"hex", "txid", "pubkey", "signature", "short_channel_id", "point32", "bip340sig"}

  /** Tags that become `"number"`; `u64` is tested on its own in the source but ends the same way. */
  const NumberTags: set<string> := {"u8", "u16", "u32", "msat", "u64"}

  /** JavaScript truthiness of a JSON value. */
  predicate Truthy(v: Json)
  {
    match v
    case JNull => false
    case JBool(b) => b
    case JNum(n) => n != 0.0
    case JStr(s) => s != ""
    case _ => true
  }

  /**
   * `v == "pubkey"` with the loose operator: a string `"pubkey"`, or an
   * array whose string form is `"pubkey"`, that is, a one-element array of
   * such a value.
   */
  predicate LoosePubkey(v: Json)
  {
    match v
    case JStr(s) => s == "pubkey"
    case JArr(es) => |es| == 1 && LoosePubkey(es[0])
    case _ => false
  }

  /** The new value of a `type` member after the three retyping tests. */
  function NewType(t: Json): (r: Json)
    ensures r == t || r == JStr("string") || r == JStr("number")
    ensures Size(r) <= Size(t)
  {
    if (t.JStr? && t.s in StringTags) || LoosePubkey(t) then JStr("string")
    else if t.JStr? && t.s in NumberTags then JStr("number")
    else t
  }

  /** `obj[key] && obj[key].deprecated`: an object with a truthy `deprecated` member. */
  predicate Deprecated(v: Json)
  {
    v.JObj? && exists k :: 0 <= k < |v.members| && v.members[k].key == "deprecated" && Truthy(v.members[k].value)
  }

  /** A member's value once the retyping of its object has run. */
  function Retyped(m: Member): Json
  {
    if m.key == "type" then NewType(m.value) else m.value
  }

  function Size(v: Json): nat
  {
    match v
    case JArr(es) => 1 + ElemsSize(es)
    case JObj(ms) => 1 + MembersSize(ms)
    case _ => 1
  }

  function ElemsSize(es: seq<Json>): nat
  {
    if es == [] then 0 else 1 + Size(es[0]) + ElemsSize(es[1..])
  }

  function MembersSize(ms: seq<Member>): nat
  {
    if ms == [] then 0 else 1 + Size(ms[0].value) + MembersSize(ms[1..])
  }

  /** The result of `fixHex(v)` on a tree, where a deleted array element reads as `null`. */
  function FixHex(v: Json): Json
    decreases Size(v), 1
  {
    match v
    case JArr(es) => JArr(FixElems(es))
    case JObj(ms) => JObj(FixMembers(ms))
    case _ => v
  }

  function FixElems(es: seq<Json>): seq<Json>
    decreases ElemsSize(es), 0
  {
    if es == [] then []
    else [if Deprecated(es[0]) then JNull else FixHex(es[0])] + FixElems(es[1..])
  }

  function FixMembers(ms: seq<Member>): seq<Member>
    decreases MembersSize(ms), 0
  {
    if ms == [] then []
    else
      var v := Retyped(ms[0]);
      (if Deprecated(v) then [] else [Member(ms[0].key, FixHex(v))]) + FixMembers(ms[1..])
  }

  /** The three tests of the source, one after the other, each seeing the previous one's result. */
  function FirstTest(t: Json): Json
  {
    if (t.JStr? && t.s in {"hex", "txid", "signature", "short_channel_id", "point32", "bip340sig"}) || LoosePubkey(t)
    then JStr("string") else t
  }

  function SecondTest(t: Json): Json
  {
    if t.JStr? && t.s in {"u8", "u16", "u32", "msat"} then JStr("number") else t
  }

  function ThirdTest(t: Json): Json
  {
    if t == JStr("u64") then JStr("number") else t
  }

  /** Running the three tests in order is the one-step table `NewType`. */
  lemma RetypeInSequence(t: Json)
    ensures ThirdTest(SecondTest(FirstTest(t))) == NewType(t)
  {
    if FirstTest(t) != t {
      assert FirstTest(t) == JStr("string");
    }
  }

  /** A retyped tag is left alone by a second pass. */
  lemma NewTypeIdempotent(t: Json)
    ensures NewType(NewType(t)) == NewType(t)
  {
    if NewType(t) == JStr("string") {
      assert "string" !in StringTags && "string" !in NumberTags;
    } else if NewType(t) == JStr("number") {
      assert "number" !in StringTags && "number" !in NumberTags;
    }
  }

  /** Exactly the listed tags and the loose `pubkey` forms are rewritten, and to the right type. */
  lemma NewTypeChanges(t: Json)
    ensures NewType(t) != t <==> (t.JStr? && t.s in StringTags + NumberTags) || LoosePubkey(t)
    ensures NewType(t) == JStr("string") <==> (t.JStr? && t.s in StringTags + {"string"}) || LoosePubkey(t)
    ensures NewType(t) == JStr("number") <==> t.JStr? && t.s in NumberTags + {"number"}
  {
    assert "string" !in StringTags + NumberTags;
    assert "number" !in StringTags + NumberTags;
    assert "string" != "number";
  }

  /** The value at each position of a fixed array: a deprecated element becomes `null`. */
  lemma FixElemsAt(es: seq<Json>)
    ensures |FixElems(es)| == |es|
    ensures forall i :: 0 <= i < |es| ==>
      FixElems(es)[i] == if Deprecated(es[i]) then JNull else FixHex(es[i])
  {
    if es != [] {
      FixElemsAt(es[1..]);
      assert forall i :: 1 <= i < |es| ==> FixElems(es)[i] == FixElems(es[1..])[i - 1];
    }
  }

  /** A member of the fixed object comes from a member of the input whose retyped value is not deprecated. */
  lemma {:induction false} FixMembersFrom(ms: seq<Member>, k: string, w: Json)
    ensures Member(k, w) in FixMembers(ms) ==>
      exists i :: 0 <= i < |ms| && ms[i].key == k && !Deprecated(Retyped(ms[i])) && w == FixHex(Retyped(ms[i]))
  {
    if ms != [] && Member(k, w) in FixMembers(ms) {
      var v := Retyped(ms[0]);
      if !Deprecated(v) && Member(k, w) == Member(ms[0].key, FixHex(v)) {
      } else {
        assert Member(k, w) in FixMembers(ms[1..]);
        FixMembersFrom(ms[1..], k, w);
        var i :| 0 <= i < |ms[1..]| && ms[1..][i].key == k && !Deprecated(Retyped(ms[1..][i])) && w == FixHex(Retyped(ms[1..][i]));
        assert ms[i + 1] == ms[1..][i];
      }
    }
  }

  /** Every member of the input whose retyped value is not deprecated survives, with its value fixed. */
  lemma {:induction false} FixMembersTo(ms: seq<Member>, i: int)
    requires 0 <= i < |ms| && !Deprecated(Retyped(ms[i]))
    ensures Member(ms[i].key, FixHex(Retyped(ms[i]))) in FixMembers(ms)
  {
    if i > 0 {
      FixMembersTo(ms[1..], i - 1);
      assert ms[1..][i - 1] == ms[i];
    }
  }

  /** A member survives, with its value fixed, exactly when its retyped value is not deprecated. */
  lemma FixMembersMember(ms: seq<Member>, k: string, w: Json)
    ensures Member(k, w) in FixMembers(ms) <==>
      exists i :: 0 <= i < |ms| && ms[i].key == k && !Deprecated(Retyped(ms[i])) && w == FixHex(Retyped(ms[i]))
  {
    FixMembersFrom(ms, k, w);
    if exists i :: 0 <= i < |ms| && ms[i].key == k && !Deprecated(Retyped(ms[i])) && w == FixHex(Retyped(ms[i])) {
      var i :| 0 <= i < |ms| && ms[i].key == k && !Deprecated(Retyped(ms[i])) && w == FixHex(Retyped(ms[i]));
      FixMembersTo(ms, i);
    }
  }

  /** Fixing keeps the kind of a value, and so its truthiness; scalars are left untouched. */
  lemma FixHexKind(v: Json)
    ensures FixHex(v).JObj? == v.JObj? && FixHex(v).JArr? == v.JArr?
    ensures !v.JObj? && !v.JArr? ==> FixHex(v) == v
    ensures Truthy(FixHex(v)) == Truthy(v)
  {
  }

  /** Fixing never makes an object deprecated. */
  lemma DeprecatedAfterFix(v: Json)
    ensures Deprecated(FixHex(v)) ==> Deprecated(v)
  {
    if Deprecated(FixHex(v)) {
      var ms := v.members;
      var k :| 0 <= k < |FixHex(v).members| && FixHex(v).members[k].key == "deprecated" && Truthy(FixHex(v).members[k].value);
      var m := FixHex(v).members[k];
      assert m in FixMembers(ms);
      FixMembersFrom(ms, m.key, m.value);
      var i :| 0 <= i < |ms| && ms[i].key == m.key && !Deprecated(Retyped(ms[i])) && m.value == FixHex(Retyped(ms[i]));
      FixHexKind(ms[i].value);
    }
  }

  /** No array element and no member anywhere below the root is deprecated. */
  predicate NoDeprecatedBelow(v: Json)
    decreases Size(v), 1
  {
    match v
    case JArr(es) => ElemsClean(es)
    case JObj(ms) => MembersClean(ms)
    case _ => true
  }

  predicate ElemsClean(es: seq<Json>)
    decreases ElemsSize(es), 0
  {
    es != [] ==> !Deprecated(es[0]) && NoDeprecatedBelow(es[0]) && ElemsClean(es[1..])
  }

  predicate MembersClean(ms: seq<Member>)
    decreases MembersSize(ms), 0
  {
    ms != [] ==> !Deprecated(ms[0].value) && NoDeprecatedBelow(ms[0].value) && MembersClean(ms[1..])
  }

  /** After `fixHex` no deprecated part is left anywhere below the root (the root itself is kept). */
  lemma {:induction false} FixHexRemovesDeprecated(v: Json)
    ensures NoDeprecatedBelow(FixHex(v))
    decreases Size(v), 1
  {
    match v
    case JArr(es) => FixElemsClean(es);
    case JObj(ms) => FixMembersClean(ms);
    case _ =>
  }

  lemma {:induction false} FixElemsClean(es: seq<Json>)
    ensures ElemsClean(FixElems(es))
    decreases ElemsSize(es), 0
  {
    if es != [] {
      FixElemsClean(es[1..]);
      if !Deprecated(es[0]) {
        FixHexRemovesDeprecated(es[0]);
        DeprecatedAfterFix(es[0]);
      }
      assert FixElems(es)[1..] == FixElems(es[1..]);
    }
  }

  lemma {:induction false} FixMembersClean(ms: seq<Member>)
    ensures MembersClean(FixMembers(ms))
    decreases MembersSize(ms), 0
  {
    if ms != [] {
      FixMembersClean(ms[1..]);
      var v := Retyped(ms[0]);
      if !Deprecated(v) {
        FixHexRemovesDeprecated(v);
        DeprecatedAfterFix(v);
        var head := Member(ms[0].key, FixHex(v));
        assert FixMembers(ms) == [head] + FixMembers(ms[1..]);
        assert ([head] + FixMembers(ms[1..]))[1..] == FixMembers(ms[1..]);
      } else {
        assert FixMembers(ms) == [] + FixMembers(ms[1..]) == FixMembers(ms[1..]);
      }
    }
  }

  /** Fixing an array never turns it into a loose `"pubkey"`. */
  lemma {:induction false} LoosePubkeyAfterFix(x: Json)
    ensures LoosePubkey(FixHex(x)) ==> LoosePubkey(x)
    decreases Size(x)
  {
    if x.JArr? && LoosePubkey(FixHex(x)) {
      var es := x.elems;
      FixElemsAt(es);
      assert FixHex(x).elems == FixElems(es);
      assert LoosePubkey(FixElems(es)[0]);
      assert ElemsSize(es) == 1 + Size(es[0]) + ElemsSize(es[1..]);
      LoosePubkeyAfterFix(es[0]);
    }
  }

  /** A `type` value that has been retyped and fixed is not retyped again. */
  lemma TypeStable(x: Json)
    ensures NewType(FixHex(NewType(x))) == FixHex(NewType(x))
  {
    if NewType(x) == x {
      LoosePubkeyAfterFix(x);
      FixHexKind(x);
    } else {
      NewTypeIdempotent(x);
    }
  }

  /** Running `fixHex` a second time changes nothing. */
  lemma {:induction false} FixHexIdempotent(v: Json)
    ensures FixHex(FixHex(v)) == FixHex(v)
    decreases Size(v), 1
  {
    match v
    case JArr(es) => FixElemsIdempotent(es);
    case JObj(ms) => FixMembersIdempotent(ms);
    case _ =>
  }

  lemma {:induction false} FixElemsIdempotent(es: seq<Json>)
    ensures FixElems(FixElems(es)) == FixElems(es)
    decreases ElemsSize(es), 0
  {
    if es != [] {
      var head := if Deprecated(es[0]) then JNull else FixHex(es[0]);
      assert FixElems(es) == [head] + FixElems(es[1..]);
      assert ([head] + FixElems(es[1..]))[1..] == FixElems(es[1..]);
      FixElemsIdempotent(es[1..]);
      if !Deprecated(es[0]) {
        DeprecatedAfterFix(es[0]);
        FixHexIdempotent(es[0]);
      }
    }
  }

  lemma {:induction false} FixMembersIdempotent(ms: seq<Member>)
    ensures FixMembers(FixMembers(ms)) == FixMembers(ms)
    decreases MembersSize(ms), 0
  {
    if ms != [] {
      var v := Retyped(ms[0]);
      FixMembersIdempotent(ms[1..]);
      if Deprecated(v) {
        assert FixMembers(ms) == [] + FixMembers(ms[1..]) == FixMembers(ms[1..]);
      } else {
        var head := Member(ms[0].key, FixHex(v));
        assert FixMembers(ms) == [head] + FixMembers(ms[1..]);
        assert ([head] + FixMembers(ms[1..]))[1..] == FixMembers(ms[1..]);
        if ms[0].key == "type" {
          TypeStable(ms[0].value);
        }
        assert Retyped(head) == FixHex(v);
        DeprecatedAfterFix(v);
        FixHexIdempotent(v);
      }
    }
  }

  /** Every object in the tree has distinct keys, as an object built by `JSON.parse` does. */
  predicate WellFormed(v: Json)
    decreases v
  {
    match v
    case JArr(es) => forall i :: 0 <= i < |es| ==> WellFormed(es[i])
    case JObj(ms) => DistinctKeys(ms) && forall i :: 0 <= i < |ms| ==> WellFormed(ms[i].value)
    case _ => true
  }

  predicate DistinctKeys(ms: seq<Member>)
  {
    forall i, j :: 0 <= i < j < |ms| ==> ms[i].key != ms[j].key
  }

  /** `Object.keys(obj)`, taken once before the loop. */
  function Keys(ms: seq<Member>): seq<string>
  {
    seq(|ms|, i requires 0 <= i < |ms| => ms[i].key)
  }

  /** `obj[key]`: the position of the member named `k`, or `|ms|` when there is none. */
  function KeyIndex(ms: seq<Member>, k: string): (r: nat)
    ensures r <= |ms|
    ensures r < |ms| ==> ms[r].key == k
    ensures forall i :: 0 <= i < r ==> ms[i].key != k
  {
    if ms == [] then 0
    else if ms[0].key == k then 0
    else 1 + KeyIndex(ms[1..], k)
  }

  lemma ElemSmaller(es: seq<Json>, i: int)
    requires 0 <= i < |es|
    ensures Size(es[i]) < ElemsSize(es)
  {
    if i > 0 {
      ElemSmaller(es[1..], i - 1);
    }
  }

  lemma MemberSmaller(ms: seq<Member>, i: int)
    requires 0 <= i < |ms|
    ensures Size(ms[i].value) < MembersSize(ms)
  {
    if i > 0 {
      MemberSmaller(ms[1..], i - 1);
    }
  }

  /** The members are fixed one at a time, independently of each other. */
  lemma {:induction false} FixMembersConcat(a: seq<Member>, b: seq<Member>)
    ensures FixMembers(a + b) == FixMembers(a) + FixMembers(b)
  {
    if a == [] {
      assert a + b == b;
    } else {
      assert (a + b)[0] == a[0];
      assert (a + b)[1..] == a[1..] + b;
      FixMembersConcat(a[1..], b);
    }
  }

  /** A key that survives fixing was a key before. */
  lemma FixMembersKeys(ms: seq<Member>, k: string)
    ensures k in Keys(FixMembers(ms)) ==> k in Keys(ms)
  {
    if k in Keys(FixMembers(ms)) {
      var j :| 0 <= j < |FixMembers(ms)| && FixMembers(ms)[j].key == k;
      var m := FixMembers(ms)[j];
      FixMembersFrom(ms, m.key, m.value);
      var i :| 0 <= i < |ms| && ms[i].key == k && !Deprecated(Retyped(ms[i])) && m.value == FixHex(Retyped(ms[i]));
      assert Keys(ms)[i] == k;
    }
  }

  /** With distinct keys, rewriting the one `type` member retypes every member as `Retyped` says. */
  lemma RetypeTypeMember(ms: seq<Member>)
    requires DistinctKeys(ms)
    ensures var t := KeyIndex(ms, "type");
      var retyped := if t < |ms| then ms[t := Member("type", NewType(ms[t].value))] else ms;
      |retyped| == |ms| && forall k :: 0 <= k < |ms| ==> retyped[k] == Member(ms[k].key, Retyped(ms[k]))
  {
  }

  /**
   * One turn of the key loop: the member named by the next key sits right
   * after the members already handled, and handling it extends the result
   * of `FixMembers` by that one member.
   */
  lemma KeyLoopStep(ms: seq<Member>, retyped: seq<Member>, i: nat)
    requires DistinctKeys(ms) && i < |ms| == |retyped|
    requires forall k :: 0 <= k < |ms| ==> retyped[k] == Member(ms[k].key, Retyped(ms[k]))
    ensures KeyIndex(FixMembers(ms[..i]) + retyped[i..], ms[i].key) == |FixMembers(ms[..i])|
    ensures Deprecated(Retyped(ms[i])) ==> FixMembers(ms[..i + 1]) == FixMembers(ms[..i])
    ensures !Deprecated(Retyped(ms[i])) ==>
      FixMembers(ms[..i + 1]) == FixMembers(ms[..i]) + [Member(ms[i].key, FixHex(Retyped(ms[i])))]
  {
    var done := FixMembers(ms[..i]);
    var members := done + retyped[i..];
    FixMembersKeys(ms[..i], ms[i].key);
    assert ms[i].key !in Keys(ms[..i]);
    assert ms[i].key !in Keys(done);
    assert members[|done|] == retyped[i];
    assert forall k :: 0 <= k < |done| ==> members[k].key != ms[i].key by {
      forall k | 0 <= k < |done|
        ensures members[k].key != ms[i].key
      {
        assert members[k] == done[k];
        assert Keys(done)[k] == done[k].key;
      }
    }
    assert ms[..i + 1] == ms[..i] + [ms[i]];
    FixMembersConcat(ms[..i], [ms[i]]);
    assert FixMembers([ms[i]][1..]) == [];
    assert done + [] == done;
  }

  lemma SplitAround<T>(done: seq<T>, xs: seq<T>, i: nat)
    requires i < |xs|
    ensures done + xs[i..] == done + [xs[i]] + xs[i + 1..]
    ensures (done + xs[i..])[|done|] == xs[i]
  {
    assert xs[i..] == [xs[i]] + xs[i + 1..];
  }

  lemma DeleteAt<T>(done: seq<T>, x: T, rest: seq<T>)
    ensures var s := done + [x] + rest; s[..|done|] + s[|done| + 1..] == done + rest
  {
    var s := done + [x] + rest;
    assert s[..|done|] == done;
    assert s[|done| + 1..] == rest;
  }

  lemma UpdateAt<T>(done: seq<T>, x: T, y: T, rest: seq<T>)
    ensures (done + [x] + rest)[|done| := y] == (done + [y]) + rest
  {
  }

  lemma WholePrefix<T>(xs: seq<T>)
    ensures xs[..|xs|] == xs && xs[|xs|..] == []
  {
  }

  /**
   * The source's `fixHex`, step by step: retype `obj.type`, then walk a
   * snapshot of the keys, deleting each deprecated child (an array keeps a
   * hole, read as `null`) and recursing into the others.
   */
  method FixHexLoop(v: Json) returns (r: Json)
    requires WellFormed(v)
    ensures r == FixHex(v)
    decreases Size(v), 1
  {
    match v
    case JArr(es) =>
      var elems := FixArrayLoop(es);
      r := JArr(elems);
    case JObj(ms) =>
      var members := FixObjectLoop(ms);
      r := JObj(members);
    case _ =>
      r := v;
  }

  /** The key loop over an array: a deprecated element leaves a hole, the others are fixed recursively. */
  method FixArrayLoop(es: seq<Json>) returns (elems: seq<Json>)
    requires forall i :: 0 <= i < |es| ==> WellFormed(es[i])
    ensures elems == FixElems(es)
    decreases ElemsSize(es), 0
  {
    elems := es;
    FixElemsAt(es);
    for i := 0 to |elems|
      invariant |elems| == |es|
      invariant forall k :: 0 <= k < i ==> elems[k] == FixElems(es)[k]
      invariant forall k :: i <= k < |es| ==> elems[k] == es[k]
    {
      if Deprecated(elems[i]) {
        elems := elems[i := JNull];
      } else {
        ElemSmaller(es, i);
        var child := FixHexLoop(elems[i]);
        elems := elems[i := child];
      }
    }
  }

  /** The three tests on `obj.type`, which rewrite that one member when it is present. */
  method RetypeObject(ms: seq<Member>) returns (retyped: seq<Member>)
    requires DistinctKeys(ms)
    ensures |retyped| == |ms|
    ensures forall k :: 0 <= k < |ms| ==> retyped[k] == Member(ms[k].key, Retyped(ms[k]))
  {
    retyped := ms;
    var t := KeyIndex(retyped, "type");
    if t < |retyped| {
      RetypeInSequence(retyped[t].value);
      retyped := retyped[t := Member("type", ThirdTest(SecondTest(FirstTest(retyped[t].value))))];
    }
    RetypeTypeMember(ms);
  }

  /** The retyping of `obj.type` followed by the key loop over an object's members. */
  method FixObjectLoop(ms: seq<Member>) returns (members: seq<Member>)
    requires DistinctKeys(ms) && forall i :: 0 <= i < |ms| ==> WellFormed(ms[i].value)
    ensures members == FixMembers(ms)
    decreases MembersSize(ms), 0
  {
    members := RetypeObject(ms);
    ghost var retyped := members;
    var keys := Keys(members);
    assert ms[..0] == [] && retyped[0..] == retyped;
    for i := 0 to |keys|
      invariant members == FixMembers(ms[..i]) + retyped[i..]
    {
      ghost var done := FixMembers(ms[..i]);
      KeyLoopStep(ms, retyped, i);
      var j := KeyIndex(members, keys[i]);
      SplitAround(done, retyped, i);
      if Deprecated(members[j].value) {
        members := members[..j] + members[j + 1..];
        DeleteAt(done, retyped[i], retyped[i + 1..]);
      } else {
        MemberSmaller(ms, i);
        var child := FixHexLoop(members[j].value);
        members := members[j := Member(keys[i], child)];
        UpdateAt(done, retyped[i], Member(keys[i], child), retyped[i + 1..]);
      }
    }
    WholePrefix(ms);
    WholePrefix(retyped);
  }
}
