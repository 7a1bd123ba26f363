/**
 * The pure core of the CUDA launcher in the NVIDIA backend driver: the C type
 * of a kernel argument, tuple flattening, the kernel-signature normalisation
 * of `make_launcher`, the argument filtering of its `wrapper`, and the size
 * of the global scratch buffer of a launch.
 */
module Launcher {
  import opened Wrappers

  /** A Python value that is either a tuple of values or something else (a leaf). */
  datatype Tree<T> = Leaf(x: T) | Tuple(elems: seq<Tree<T>>)

  // ---------------------------------------------------------------------------
  // ty_to_cpp
  // ---------------------------------------------------------------------------

  /** The exceptions `ty_to_cpp` can raise: `ty[0]` of an empty name, or a name missing from the table. */
  datatype PyError = IndexError | KeyError

  /** The scalar type names and their C types. */
  const ScalarTypes: map<string, string> := map[
    "i1" := "int32_t", "i8" := "int8_t", "i16" := "int16_t", "i32" := "int32_t", "i64" := "int64_t",
    "u1" := "uint32_t", "u8" := "uint8_t", "u16" := "uint16_t", "u32" := "uint32_t", "u64" := "uint64_t",
    "fp16" := "float", "bf16" := "float", "fp32" := "float", "f32" := "float", "fp64" := "double",
    "nvTmaDesc" := "CUtensorMap"]

  /**
   * The C type of a kernel argument: a device pointer for every pointer type
   * and for `none`, the table entry for a listed scalar, and an error for any
   * other name (an `IndexError` for the empty name, whose first character is read).
   */
  function TyToCpp(ty: string): (r: Result<string, PyError>)
    ensures r == Failure(IndexError) <==> ty == ""
    ensures r.Success? <==> ty != "" && (ty[0] == '*' || ty == "none" || ty in ScalarTypes)
    ensures r.Success? && ty[0] != '*' && ty != "none" ==> r.value == ScalarTypes[ty]
    ensures r.Success? ==> r.value == "CUdeviceptr" || r.value in ScalarTypes.Values
  {
    if ty == "" then Failure(IndexError)
    else if ty[0] == '*' || ty == "none" then Success("CUdeviceptr")
    else if ty in ScalarTypes then Success(ScalarTypes[ty])
    else Failure(KeyError)
  }

  /** Every pointer type is passed as a device pointer; the signed integers keep their width, except that `i1` widens to 32 bits. */
  lemma TyToCppTable(pointee: string)
    ensures TyToCpp("*" + pointee) == Success("CUdeviceptr")
    ensures TyToCpp("none") == Success("CUdeviceptr")
    ensures TyToCpp("i1") == Success("int32_t") && TyToCpp("i8") == Success("int8_t")
    ensures TyToCpp("i64") == Success("int64_t") && TyToCpp("fp64") == Success("double")
    ensures TyToCpp("constexpr") == Failure(KeyError)
  {
    assert ("*" + pointee)[0] == '*';
  }

  // ---------------------------------------------------------------------------
  // flatten_tuples
  // ---------------------------------------------------------------------------

  /** The leaves of the values, left to right, depth first; tuples contribute their leaves only. */
  function FlattenTuples<T>(xs: seq<Tree<T>>): seq<T>
    decreases xs, 0
  {
    if xs == [] then [] else FlattenOneValue(xs[0]) + FlattenTuples(xs[1..])
  }

  /** The leaves of one value: itself if it is not a tuple. */
  function FlattenOneValue<T>(t: Tree<T>): seq<T>
    decreases t, 1
  {
    match t
    case Leaf(x) => [x]
    case Tuple(elems) => FlattenTuples(elems)
  }

  /** Flattening is a homomorphism: it distributes over concatenation. */
  lemma {:induction false} FlattenAppend<T>(a: seq<Tree<T>>, b: seq<Tree<T>>)
    ensures FlattenTuples(a + b) == FlattenTuples(a) + FlattenTuples(b)
    decreases |a|
  {
    if a == [] {
      assert a + b == b;
    } else {
      FlattenAppend(a[1..], b);
      assert (a + b)[0] == a[0];
      assert (a + b)[1..] == a[1..] + b;
    }
  }

  /** A leaf yields itself, a tuple yields its flattened elements, so an empty tuple yields nothing. */
  lemma FlattenOne<T>(x: T, elems: seq<Tree<T>>, rest: seq<Tree<T>>)
    ensures FlattenTuples([Leaf(x)] + rest) == [x] + FlattenTuples(rest)
    ensures FlattenTuples([Tuple(elems)] + rest) == FlattenTuples(elems) + FlattenTuples(rest)
    ensures FlattenTuples([Tuple([])] + rest) == FlattenTuples(rest)
  {
    assert ([Leaf(x)] + rest)[1..] == rest;
    assert ([Tuple(elems)] + rest)[1..] == rest;
    assert ([Tuple([])] + rest)[1..] == rest;
  }

  /** Without tuples, flattening keeps every value in place. */
  lemma {:induction false} FlattenNoTuples<T>(xs: seq<Tree<T>>)
    requires forall i :: 0 <= i < |xs| ==> xs[i].Leaf?
    ensures |FlattenTuples(xs)| == |xs| && forall i :: 0 <= i < |xs| ==> FlattenTuples(xs)[i] == xs[i].x
    decreases |xs|
  {
    if xs != [] {
      FlattenNoTuples(xs[1..]);
    }
  }

  // ---------------------------------------------------------------------------
  // String helpers with Python's semantics
  // ---------------------------------------------------------------------------

  /** `','.join(ss)`. */
  function JoinComma(ss: seq<string>): string
    decreases |ss|
  {
    if |ss| == 0 then ""
    else if |ss| == 1 then ss[0]
    else JoinComma(ss[..|ss| - 1]) + "," + ss[|ss| - 1]
  }

  /** `s.split(',')`: never empty, `""` gives `[""]`, and adjacent commas give empty fields. */
  function Split(s: string): (r: seq<string>)
    ensures |r| > 0
    decreases |s|
  {
    if s == "" then [""]
    else if s[0] == ',' then [""] + Split(s[1..])
    else
      var rest := Split(s[1..]);
      [[s[0]] + rest[0]] + rest[1..]
  }

  /** `list(filter(bool, ss))`: the non-empty strings. */
  function NonEmpty(ss: seq<string>): seq<string>
    decreases |ss|
  {
    if ss == [] then [] else NonEmpty(ss[..|ss| - 1]) + (if ss[|ss| - 1] != "" then [ss[|ss| - 1]] else [])
  }

  lemma {:induction false} SplitAppend(a: string, b: string)
    ensures Split(a + "," + b) == Split(a) + Split(b)
    decreases |a|
  {
    if a == "" {
      assert a + "," + b == [','] + b;
      assert ([','] + b)[1..] == b;
    } else {
      assert (a + "," + b)[1..] == a[1..] + "," + b;
      SplitAppend(a[1..], b);
    }
  }

  lemma {:induction false} SplitNoComma(s: string)
    requires ',' !in s
    ensures Split(s) == [s]
    decreases |s|
  {
    if s != "" {
      SplitNoComma(s[1..]);
      assert [s[0]] + s[1..] == s;
    }
  }

  lemma {:induction false} NonEmptyAppend(a: seq<string>, b: seq<string>)
    ensures NonEmpty(a + b) == NonEmpty(a) + NonEmpty(b)
    decreases |b|
  {
    if b == [] {
      assert a + b == a;
    } else {
      NonEmptyAppend(a, b[..|b| - 1]);
      assert (a + b)[..|a + b| - 1] == a + b[..|b| - 1];
    }
  }

  /** The fields of a comma-joined list, empty ones dropped: the fields of the parts, one part after the other. */
  lemma {:induction false} FieldsOfJoin(ss: seq<string>)
    ensures NonEmpty(Split(JoinComma(ss))) == FieldsOfAll(ss)
    decreases |ss|
  {
    if |ss| == 0 {
      assert NonEmpty([""]) == NonEmpty([]) + [];
    } else if |ss| == 1 {
      assert ss == [] + [ss[0]];
      assert FieldsOfAll(ss) == FieldsOfAll([]) + NonEmpty(Split(ss[0]));
    } else {
      var pre := ss[..|ss| - 1];
      FieldsOfJoin(pre);
      SplitAppend(JoinComma(pre), ss[|ss| - 1]);
      NonEmptyAppend(Split(JoinComma(pre)), Split(ss[|ss| - 1]));
    }
  }

  /** The non-empty fields of each string, concatenated. */
  function FieldsOfAll(ss: seq<string>): seq<string>
    decreases |ss|
  {
    if ss == [] then [] else FieldsOfAll(ss[..|ss| - 1]) + NonEmpty(Split(ss[|ss| - 1]))
  }

  lemma {:induction false} FieldsOfAllAppend(a: seq<string>, b: seq<string>)
    ensures FieldsOfAll(a + b) == FieldsOfAll(a) + FieldsOfAll(b)
    decreases |b|
  {
    if b == [] {
      assert a + b == a;
    } else {
      var pre := b[..|b| - 1];
      var last := NonEmpty(Split(b[|b| - 1]));
      assert FieldsOfAll(a + pre) == FieldsOfAll(a) + FieldsOfAll(pre) by {
        FieldsOfAllAppend(a, pre);
      }
      assert (a + b)[..|a + b| - 1] == a + pre;
      assert (a + b)[|a + b| - 1] == b[|b| - 1];
      assert FieldsOfAll(a + b) == FieldsOfAll(a + pre) + last;
      assert FieldsOfAll(b) == FieldsOfAll(pre) + last;
      assert (FieldsOfAll(a) + FieldsOfAll(pre)) + last == FieldsOfAll(a) + (FieldsOfAll(pre) + last);
    }
  }

  // ---------------------------------------------------------------------------
  // make_launcher: signature normalisation
  // ---------------------------------------------------------------------------

  /** `_serialize_signature`: a tuple becomes its serialised elements joined by commas. */
  function Serialize(t: Tree<string>): string
    decreases t, 1
  {
    match t
    case Leaf(s) => s
    case Tuple(elems) => JoinComma(SerializeAll(elems))
  }

  function SerializeAll(ts: seq<Tree<string>>): (r: seq<string>)
    ensures |r| == |ts|
    decreases ts, 0
  {
    if ts == [] then [] else [Serialize(ts[0])] + SerializeAll(ts[1..])
  }

  /** A type name that survives the comma round trip: not empty and without commas. */
  predicate PlainName(s: string) {
    s != "" && ',' !in s
  }

  /** Every leaf of the value is a plain name. */
  predicate PlainTree(t: Tree<string>)
    decreases t, 1
  {
    match t
    case Leaf(s) => PlainName(s)
    case Tuple(elems) => PlainLeaves(elems)
  }

  /** Every leaf of the values is a plain name. */
  predicate PlainLeaves(ts: seq<Tree<string>>)
    decreases ts, 0
  {
    forall i :: 0 <= i < |ts| ==> PlainTree(ts[i])
  }

  /**
   * Serialising, splitting on commas and dropping empty fields flattens the
   * tuples: each empty tuple leaves only an empty field, which is dropped.
   */
  lemma {:induction false} SerializeFlattens(ts: seq<Tree<string>>)
    requires PlainLeaves(ts)
    ensures FieldsOfAll(SerializeAll(ts)) == FlattenTuples(ts)
    decreases ts, 0
  {
    if ts != [] {
      var rest := ts[1..];
      assert PlainLeaves(rest) by {
        forall i | 0 <= i < |rest|
          ensures PlainTree(rest[i])
        {
          assert rest[i] == ts[i + 1];
        }
      }
      var head := Serialize(ts[0]);
      var tail := SerializeAll(rest);
      assert FieldsOfAll(tail) == FlattenTuples(rest) by {
        SerializeFlattens(rest);
      }
      assert NonEmpty(Split(head)) == FlattenTuples([ts[0]]) by {
        assert PlainTree(ts[0]);
        SerializeFlattensOne(ts[0]);
      }
      assert FlattenTuples([ts[0]]) == FlattenOneValue(ts[0]) by {
        assert [ts[0]][1..] == [];
      }
      assert SerializeAll(ts) == [head] + tail;
      assert FieldsOfAll([head] + tail) == FieldsOfAll([head]) + FieldsOfAll(tail) by {
        FieldsOfAllAppend([head], tail);
      }
      assert FieldsOfAll([head]) == NonEmpty(Split(head)) by {
        assert [head][..0] == [];
      }
    }
  }

  /** The fields of one serialised value are its leaves. */
  lemma {:induction false} SerializeFlattensOne(t: Tree<string>)
    requires PlainTree(t)
    ensures NonEmpty(Split(Serialize(t))) == FlattenTuples([t])
    decreases t, 1
  {
    match t
    case Leaf(s) =>
      SplitNoComma(s);
      assert NonEmpty([s]) == NonEmpty([]) + [s];
      assert [t][1..] == [];
    case Tuple(elems) =>
      SerializeFlattens(elems);
      FieldsOfJoin(SerializeAll(elems));
      assert [t][1..] == [];
      assert FlattenTuples([t]) == FlattenTuples(elems) + FlattenTuples([]);
  }

  /** The values kept after dropping the positions in `drop`, in order. */
  function Keep<T>(xs: seq<T>, drop: set<nat>): seq<T>
    decreases |xs|
  {
    if xs == [] then [] else Keep(xs[..|xs| - 1], drop) + (if |xs| - 1 in drop then [] else [xs[|xs| - 1]])
  }

  /** The positions below `n` that are not dropped, in ascending order. */
  function KeptPositions(n: nat, drop: set<nat>): (p: seq<nat>)
    ensures forall j :: 0 <= j < |p| ==> p[j] < n && p[j] !in drop
    decreases n
  {
    if n == 0 then [] else KeptPositions(n - 1, drop) + (if n - 1 in drop then [] else [n - 1])
  }

  /** The kept positions are exactly the undropped positions below `n`. */
  lemma {:induction false} KeptPositionsMembers(n: nat, drop: set<nat>)
    ensures forall i: nat :: i in KeptPositions(n, drop) <==> i < n && i !in drop
    decreases n
  {
    if n > 0 {
      var pre := KeptPositions(n - 1, drop);
      assert forall i: nat :: i in pre <==> i < n - 1 && i !in drop by {
        KeptPositionsMembers(n - 1, drop);
      }
      assert KeptPositions(n, drop) == pre + (if n - 1 in drop then [] else [n - 1]);
    }
  }

  /** The kept positions ascend. */
  lemma {:induction false} KeptPositionsIncreasing(n: nat, drop: set<nat>)
    ensures forall j, k :: 0 <= j < k < |KeptPositions(n, drop)| ==> KeptPositions(n, drop)[j] < KeptPositions(n, drop)[k]
    decreases n
  {
    if n > 0 {
      var pre := KeptPositions(n - 1, drop);
      assert forall j, k :: 0 <= j < k < |pre| ==> pre[j] < pre[k] by {
        KeptPositionsIncreasing(n - 1, drop);
      }
      var p := pre + (if n - 1 in drop then [] else [n - 1]);
      assert KeptPositions(n, drop) == p;
      forall j, k | 0 <= j < k < |p|
        ensures p[j] < p[k]
      {
        assert p[j] == pre[j];
        if k < |pre| {
          assert p[k] == pre[k];
        }
      }
    }
  }

  /** Keeping leaves one value per kept position. */
  lemma {:induction false} KeepLength<T>(xs: seq<T>, drop: set<nat>)
    ensures |Keep(xs, drop)| == |KeptPositions(|xs|, drop)|
    decreases |xs|
  {
    if xs != [] {
      var pre := xs[..|xs| - 1];
      assert |Keep(pre, drop)| == |KeptPositions(|pre|, drop)| by {
        KeepLength(pre, drop);
      }
      assert |pre| == |xs| - 1;
    }
  }

  /** The `j`-th kept value is the value at the `j`-th kept position. */
  lemma {:induction false} KeepValues<T>(xs: seq<T>, drop: set<nat>)
    ensures var p := KeptPositions(|xs|, drop);
      |Keep(xs, drop)| == |p| && forall j :: 0 <= j < |p| ==> Keep(xs, drop)[j] == xs[p[j]]
    decreases |xs|
  {
    if xs != [] {
      var pre := xs[..|xs| - 1];
      var last := |xs| - 1;
      var kp := Keep(pre, drop);
      var pp := KeptPositions(last, drop);
      assert |kp| == |pp| && forall j :: 0 <= j < |pp| ==> kp[j] == pre[pp[j]] by {
        KeepValues(pre, drop);
      }
      var k := kp + (if last in drop then [] else [xs[last]]);
      var p := pp + (if last in drop then [] else [last]);
      assert Keep(xs, drop) == k;
      assert KeptPositions(|xs|, drop) == p;
      forall j | 0 <= j < |p|
        ensures k[j] == xs[p[j]]
      {
        if j < |pp| {
          assert k[j] == kp[j] && p[j] == pp[j];
        }
      }
    }
  }

  /** Keeping is reading the values at the kept positions; those are exactly the undropped ones, in ascending order. */
  lemma KeepAtPositions<T>(xs: seq<T>, drop: set<nat>)
    ensures var p := KeptPositions(|xs|, drop);
      && |Keep(xs, drop)| == |p|
      && (forall j :: 0 <= j < |p| ==> Keep(xs, drop)[j] == xs[p[j]])
      && (forall i: nat :: i in p <==> i < |xs| && i !in drop)
      && (forall j, k :: 0 <= j < k < |p| ==> p[j] < p[k])
  {
    KeepValues(xs, drop);
    KeptPositionsMembers(|xs|, drop);
    KeptPositionsIncreasing(|xs|, drop);
  }

  /** The positions of the top-level `constexpr` entries. */
  function ConstexprIndices(sig: seq<Tree<string>>): set<nat> {
    set i: nat | i < |sig| && sig[i] == Leaf("constexpr")
  }

  /** The fields of the signature after the first removal and the flattening. */
  function Fields(sig: seq<Tree<string>>): seq<string> {
    NonEmpty(Split(JoinComma(SerializeAll(Keep(sig, ConstexprIndices(sig))))))
  }

  /** The positions of the `constexpr` fields after flattening. */
  function ConstexprFields(fields: seq<string>): set<nat> {
    set i: nat | i < |fields| && fields[i] == "constexpr"
  }

  /** The normalised signature: each remaining field under its position in the flattened list. */
  function NormalizedSignature(sig: seq<Tree<string>>): map<nat, string> {
    var fields := Fields(sig);
    map i: nat | i < |fields| && fields[i] != "constexpr" :: fields[i]
  }

  lemma {:induction false} NonEmptyFacts(ss: seq<string>)
    ensures forall s :: s in NonEmpty(ss) <==> s in ss && s != ""
    decreases |ss|
  {
    if ss != [] {
      NonEmptyFacts(ss[..|ss| - 1]);
      assert ss == ss[..|ss| - 1] + [ss[|ss| - 1]];
    }
  }

  /**
   * No `constexpr` survives normalisation and no empty field does either;
   * the keys are the positions in the flattened list, not renumbered, so
   * removed positions leave gaps.
   */
  lemma NormalizedSignatureFacts(sig: seq<Tree<string>>)
    ensures var fields := Fields(sig); var m := NormalizedSignature(sig);
      && (forall k :: k in m ==> m[k] != "constexpr" && m[k] != "")
      && (forall k: nat :: k in m <==> k < |fields| && k !in ConstexprFields(fields))
      && (forall k :: k in m ==> m[k] == fields[k])
  {
    var fields := Fields(sig);
    NonEmptyFacts(Split(JoinComma(SerializeAll(Keep(sig, ConstexprIndices(sig))))));
    forall k | k in NormalizedSignature(sig)
      ensures NormalizedSignature(sig)[k] != ""
    {
      assert fields[k] in fields;
    }
  }

  lemma {:induction false} KeepKeepsSubset<T>(xs: seq<T>, drop: set<nat>)
    ensures forall x :: x in Keep(xs, drop) ==> x in xs
    decreases |xs|
  {
    if xs != [] {
      KeepKeepsSubset(xs[..|xs| - 1], drop);
      assert xs == xs[..|xs| - 1] + [xs[|xs| - 1]];
    }
  }

  /**
   * With plain type names, the fields are exactly the leaves of the
   * non-`constexpr` entries, flattened: the comma round trip loses nothing.
   */
  lemma FieldsAreFlattenedLeaves(sig: seq<Tree<string>>)
    requires PlainLeaves(sig)
    ensures Fields(sig) == FlattenTuples(Keep(sig, ConstexprIndices(sig)))
  {
    var kept := Keep(sig, ConstexprIndices(sig));
    KeepKeepsSubset(sig, ConstexprIndices(sig));
    assert PlainLeaves(kept) by {
      forall i | 0 <= i < |kept|
        ensures PlainTree(kept[i])
      {
        assert kept[i] in sig;
      }
    }
    FieldsOfJoin(SerializeAll(kept));
    SerializeFlattens(kept);
  }

  /** The example of the source's own comment: an empty tuple, a `constexpr` entry and a mixed tuple. */
  lemma NormalizeCommentExample(sig: seq<Tree<string>>)
    requires sig == [Leaf("i32"), Tuple([]), Leaf("constexpr"), Tuple([Leaf("*f32"), Leaf("constexpr")]), Leaf("constexpr")]
    ensures NormalizedSignature(sig) == map[0 := "i32", 1 := "*f32"]
  {
    CommentExampleFields(sig);
    FieldsToMap(sig, ["i32", "*f32", "constexpr"], map[0 := "i32", 1 := "*f32"]);
  }

  lemma CommentExampleFields(sig: seq<Tree<string>>)
    requires sig == [Leaf("i32"), Tuple([]), Leaf("constexpr"), Tuple([Leaf("*f32"), Leaf("constexpr")]), Leaf("constexpr")]
    ensures Fields(sig) == ["i32", "*f32", "constexpr"]
  {
    var kept := [Leaf("i32"), Tuple([]), Tuple([Leaf("*f32"), Leaf("constexpr")])];
    CommentExampleKeep(sig, kept);
    PlainExample(kept);
    assert PlainLeaves(sig) by {
      assert sig == kept[..2] + [Leaf("constexpr")] + kept[2..] + [Leaf("constexpr")];
    }
    FieldsAreFlattenedLeaves(sig);
    CommentExampleFlatten(kept);
  }

  /** Keys are kept positions, not renumbered: a `constexpr` inside a tuple leaves a gap. */
  lemma NormalizeGapExample(sig: seq<Tree<string>>)
    requires sig == [Leaf("i32"), Tuple([Leaf("constexpr"), Leaf("*f32")])]
    ensures NormalizedSignature(sig) == map[0 := "i32", 2 := "*f32"]
  {
    GapExampleFields(sig);
    FieldsToMap(sig, ["i32", "constexpr", "*f32"], map[0 := "i32", 2 := "*f32"]);
  }

  lemma GapExampleFields(sig: seq<Tree<string>>)
    requires sig == [Leaf("i32"), Tuple([Leaf("constexpr"), Leaf("*f32")])]
    ensures Fields(sig) == ["i32", "constexpr", "*f32"]
  {
    assert ConstexprIndices(sig) == {};
    assert Keep(sig, {}) == sig by {
      assert sig[..1][..0] == [];
      assert Keep(sig[..1], {}) == [sig[0]];
      assert sig[..2] == sig;
    }
    assert PlainLeaves(sig) by {
      assert PlainLeaves([Leaf("constexpr"), Leaf("*f32")]);
    }
    FieldsAreFlattenedLeaves(sig);
    assert FlattenTuples([Leaf("constexpr"), Leaf("*f32")]) == ["constexpr", "*f32"] by {
      assert [Leaf("constexpr"), Leaf("*f32")][1..] == [Leaf("*f32")];
    }
    assert FlattenTuples(sig) == ["i32", "constexpr", "*f32"] by {
      assert sig[1..] == [sig[1]];
      assert [sig[1]][1..] == [];
      assert FlattenTuples(sig[1..]) == FlattenOneValue(sig[1]);
    }
  }

  lemma CommentExampleKeep(sig: seq<Tree<string>>, kept: seq<Tree<string>>)
    requires sig == [Leaf("i32"), Tuple([]), Leaf("constexpr"), Tuple([Leaf("*f32"), Leaf("constexpr")]), Leaf("constexpr")]
    requires kept == [Leaf("i32"), Tuple([]), Tuple([Leaf("*f32"), Leaf("constexpr")])]
    ensures Keep(sig, ConstexprIndices(sig)) == kept
  {
    var d: set<nat> := {2, 4};
    assert ConstexprIndices(sig) == d by {
      assert sig[2] == Leaf("constexpr") && sig[4] == Leaf("constexpr");
    }
    assert sig[..1][..0] == [];
    assert Keep(sig[..1], d) == [sig[0]];
    assert sig[..2][..1] == sig[..1];
    assert Keep(sig[..2], d) == [sig[0], sig[1]];
    assert sig[..3][..2] == sig[..2];
    assert Keep(sig[..3], d) == [sig[0], sig[1]];
    assert sig[..4][..3] == sig[..3];
    assert Keep(sig[..4], d) == kept;
    assert sig[..5][..4] == sig[..4];
  }

  lemma CommentExampleFlatten(kept: seq<Tree<string>>)
    requires kept == [Leaf("i32"), Tuple([]), Tuple([Leaf("*f32"), Leaf("constexpr")])]
    ensures FlattenTuples(kept) == ["i32", "*f32", "constexpr"]
  {
    var inner := [Leaf("*f32"), Leaf("constexpr")];
    assert FlattenTuples(inner) == ["*f32", "constexpr"] by {
      assert inner[1..] == [Leaf("constexpr")];
    }
    assert FlattenTuples(kept[2..]) == ["*f32", "constexpr"] by {
      assert kept[2..] == [Tuple(inner)];
    }
    assert kept[1..][1..] == kept[2..];
    assert FlattenOneValue(kept[1]) == [];
    assert FlattenTuples(kept[1..]) == ["*f32", "constexpr"];
    assert FlattenOneValue(kept[0]) == ["i32"];
  }

  lemma FieldsToMap(sig: seq<Tree<string>>, fields: seq<string>, m: map<nat, string>)
    requires Fields(sig) == fields
    requires forall k: nat :: k in m <==> k < |fields| && fields[k] != "constexpr"
    requires forall k :: k in m ==> k < |fields| && m[k] == fields[k]
    ensures NormalizedSignature(sig) == m
  {
  }

  lemma PlainExample(kept: seq<Tree<string>>)
    requires kept == [Leaf("i32"), Tuple([]), Tuple([Leaf("*f32"), Leaf("constexpr")])]
    ensures PlainLeaves(kept)
  {
    assert PlainLeaves([Leaf("*f32"), Leaf("constexpr")]);
  }

  // ---------------------------------------------------------------------------
  // wrapper: the arguments passed to the launch
  // ---------------------------------------------------------------------------

  /** The wrapper's filtering: drop the top-level `constexpr` positions, flatten, drop the flattened `constexpr` positions. */
  function WrapperArgs<A>(sig: seq<Tree<string>>, args: seq<Tree<A>>): seq<A> {
    Keep(FlattenTuples(Keep(args, ConstexprIndices(sig))), ConstexprFields(Fields(sig)))
  }

  /** An argument has the tuple shape of its signature entry. */
  predicate Matches<A>(s: Tree<string>, a: Tree<A>)
    decreases s
  {
    match s
    case Leaf(_) => a.Leaf?
    case Tuple(elems) => a.Tuple? && |a.elems| == |elems| && forall i :: 0 <= i < |elems| ==> Matches(elems[i], a.elems[i])
  }

  /** Arguments shaped like their signature entries flatten to as many values as the entries. */
  lemma {:induction false} MatchingFlattenLength<A>(ss: seq<Tree<string>>, as_: seq<Tree<A>>)
    requires |ss| == |as_| && forall i :: 0 <= i < |ss| ==> Matches(ss[i], as_[i])
    ensures |FlattenTuples(as_)| == |FlattenTuples(ss)|
    decreases ss
  {
    if ss != [] {
      MatchingFlattenLength(ss[1..], as_[1..]);
      if ss[0].Tuple? {
        MatchingFlattenLength(ss[0].elems, as_[0].elems);
      }
    }
  }

  /** Keeping the same positions of two equally long lists keeps pairs that were aligned. */
  lemma {:induction false} KeepAligned<T, U>(xs: seq<T>, ys: seq<U>, drop: set<nat>, P: (T, U) -> bool)
    requires |xs| == |ys| && forall i :: 0 <= i < |xs| && i !in drop ==> P(xs[i], ys[i])
    ensures |Keep(xs, drop)| == |Keep(ys, drop)|
    ensures forall j :: 0 <= j < |Keep(xs, drop)| ==> P(Keep(xs, drop)[j], Keep(ys, drop)[j])
    decreases |xs|
  {
    if xs != [] {
      KeepAligned(xs[..|xs| - 1], ys[..|ys| - 1], drop, P);
    }
  }

  /**
   * Arguments shaped like the signature, with plain type names, reach the
   * launch aligned with the normalised signature: as many values as it has
   * entries, the `j`-th value coming from the flattened position of its
   * `j`-th key, keys taken in ascending order.
   */
  lemma WrapperAlignsWithSignature<A>(sig: seq<Tree<string>>, args: seq<Tree<A>>)
    requires |args| == |sig| && PlainLeaves(sig)
    requires forall i :: 0 <= i < |sig| && sig[i] != Leaf("constexpr") ==> Matches(sig[i], args[i])
    ensures var flat := FlattenTuples(Keep(args, ConstexprIndices(sig)));
      var m := NormalizedSignature(sig);
      var p := KeptPositions(|flat|, ConstexprFields(Fields(sig)));
      && |flat| == |Fields(sig)|
      && |WrapperArgs(sig, args)| == |p|
      && (forall k: nat :: k in m <==> k in p)
      && (forall j, k :: 0 <= j < k < |p| ==> p[j] < p[k])
      && (forall j :: 0 <= j < |p| ==> WrapperArgs(sig, args)[j] == flat[p[j]] && p[j] in m)
  {
    var before := ConstexprIndices(sig);
    var keptArgs := Keep(args, before);
    var keptSig := Keep(sig, before);
    KeepAligned(sig, args, before, (s, a) => Matches(s, a));
    MatchingFlattenLength(keptSig, keptArgs);
    FieldsAreFlattenedLeaves(sig);
    var flat := FlattenTuples(keptArgs);
    var after := ConstexprFields(Fields(sig));
    KeepAtPositions(flat, after);
    NormalizedSignatureFacts(sig);
  }

  // ---------------------------------------------------------------------------
  // CudaLauncher.__call__: global scratch
  // ---------------------------------------------------------------------------

  /** The bytes of global scratch a launch allocates: one slice per program of the grid, and none without scratch. */
  function ScratchAllocSize(gridX: int, gridY: int, gridZ: int, globalScratchSize: int): (r: Option<int>)
    ensures r.Some? <==> globalScratchSize > 0
  {
    if globalScratchSize > 0 then
      var gridSize := gridX * gridY * gridZ;
      Some(gridSize * globalScratchSize)
    else None
  }

  /**
   * The allocation is empty exactly for an empty grid, and it holds one
   * whole slice of `global_scratch_size` bytes for every program of the grid.
   */
  lemma ScratchPerProgram(gridX: nat, gridY: nat, gridZ: nat, globalScratchSize: int)
    requires globalScratchSize > 0
    ensures var r := ScratchAllocSize(gridX, gridY, gridZ, globalScratchSize);
      && r.value >= 0
      && (r.value == 0 <==> gridX == 0 || gridY == 0 || gridZ == 0)
      && forall pid: nat :: pid < gridX * gridY * gridZ ==> SliceEnd(pid, globalScratchSize) <= r.value
  {
    var g := gridX * gridY * gridZ;
    var r := ScratchAllocSize(gridX, gridY, gridZ, globalScratchSize);
    NonNegativeProduct(gridX, gridY);
    NonNegativeProduct(gridX * gridY, gridZ);
    NonNegativeProduct(g, globalScratchSize);
    if gridX != 0 && gridY != 0 && gridZ != 0 {
      PositiveProduct(gridX, gridY);
      PositiveProduct(gridX * gridY, gridZ);
      PositiveProduct(g, globalScratchSize);
    }
    forall pid: nat | pid < g
      ensures SliceEnd(pid, globalScratchSize) <= r.value
    {
      MonotoneProduct(pid + 1, g, globalScratchSize);
    }
  }

  /** Where the scratch slice of program `pid` ends. */
  function SliceEnd(pid: nat, globalScratchSize: int): int {
    (pid + 1) * globalScratchSize
  }

  lemma NonNegativeProduct(a: int, b: int)
    requires a >= 0 && b >= 0
    ensures a * b >= 0
  {
  }

  lemma PositiveProduct(a: int, b: int)
    requires a > 0 && b > 0
    ensures a * b > 0
  {
  }

  lemma MonotoneProduct(a: int, b: int, c: int)
    requires a <= b && c >= 0
    ensures a * c <= b * c
  {
    NonNegativeProduct(b - a, c);
    assert (b - a) * c == b * c - a * c;
  }
}
