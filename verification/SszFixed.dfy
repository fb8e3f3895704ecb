/** What a fixed-size type is: one whose values all encode to equally many bytes (spec/ssz/collections.py). */
module SszFixed {
  import opened Bytes
  import opened SszTypes
  import opened SszCodec
  import SszRoundTrip
  import opened SszSize

  /** A value of every type. */
  function Default(t: SszType): (v: Value)
    decreases t, 1
  {
    match t
    case UintT(_) => UintV(0)
    case BooleanT => BoolV(false)
    case BytesT(n) => BytesV(ToLE(0, n))
    case ByteListT(_) => BytesV([])
    case BitvectorT(n) => BitsV(seq(n, _ => false))
    case BitlistT(_) => BitsV([])
    case VectorT(e, n) => SeqV(seq(n, _ => Default(e)))
    case ListT(_, _) => SeqV([])
    case ContainerT(fs) => SeqV(Defaults(fs))
  }

  function Defaults(fs: seq<SszType>): (vs: seq<Value>)
    ensures |vs| == |fs|
    decreases fs, 0
  {
    if fs == [] then [] else [Default(fs[0])] + Defaults(fs[1..])
  }

  lemma {:induction false} DefaultTyped(t: SszType)
    ensures HasType(Default(t), t)
    decreases t, 1
  {
    match t
    case VectorT(e, n) => DefaultTyped(e);
    case ContainerT(fs) => DefaultsTyped(fs);
    case _ =>
  }

  lemma {:induction false} DefaultsTyped(fs: seq<SszType>)
    ensures AllTyped(Defaults(fs), fs)
    decreases fs, 0
  {
    hide HasType;
    if fs != [] {
      DefaultTyped(fs[0]);
      DefaultsTyped(fs[1..]);
      var vs := Defaults(fs);
      forall i | 0 <= i < |fs|
        ensures HasType(vs[i], fs[i])
      {
        if i > 0 {
          assert vs[i] == Defaults(fs[1..])[i - 1] && fs[i] == fs[1..][i - 1];
        }
      }
    }
  }

  /** Limits leave room for a second length: an element, a byte, or eight bits; vectors are not empty. */
  predicate Roomy(t: SszType)
  {
    match t
    case ByteListT(n) => n >= 1
    case BitlistT(n) => n >= 8
    case VectorT(e, n) => n >= 1 && Roomy(e)
    case ListT(_, n) => n >= 1
    case ContainerT(fs) => forall f | f in fs :: Roomy(f)
    case _ => true
  }

  lemma FixedSize(t: SszType, v: Value)
    requires IsFixed(t) && HasType(v, t)
    ensures Size(t, v) == Width(t)
  {
    hide IsFixed, HasType, Size, Width, Serialize;
    SszRoundTrip.FixedWidth(t, v);
    SizeLaw(t, v);
  }

  // ---- a variable-size type has values of two sizes ----

  /** Replacing one variable-size field moves the size by the difference. */
  lemma {:induction false} TailSizeAt(fs: seq<SszType>, vs: seq<Value>, ws: seq<Value>, i: nat)
    requires AllTyped(vs, fs) && AllTyped(ws, fs) && i < |fs| && !IsFixed(fs[i])
    requires |vs| == |ws| == |fs| && forall j | 0 <= j < |fs| && j != i :: vs[j] == ws[j]
    ensures HasType(vs[i], fs[i]) && HasType(ws[i], fs[i])
    ensures TailSize(fs, vs) - TailSize(fs, ws) == Size(fs[i], vs[i]) - Size(fs[i], ws[i])
    decreases |fs|
  {
    hide HasType, Size, IsFixed, Serialize, TailSize;
    FieldStep(fs, vs, 0);
    FieldStep(fs, ws, 0);
    if i > 0 {
      TailSizeAt(fs[1..], vs[1..], ws[1..], i - 1);
    } else {
      assert vs[1..] == ws[1..];
    }
  }

  lemma RowSizes(t: SszType, v: Value, w: Value, i: nat)
    requires !IsLeaf(t) && HasType(v, t) && HasType(w, t)
    requires v.SeqV? && w.SeqV? && |v.elems| == |w.elems| && i < |FieldsOf(t, |v.elems|)| <= |v.elems|
    requires !IsFixed(FieldsOf(t, |v.elems|)[i])
    requires forall j | 0 <= j < |v.elems| && j != i :: v.elems[j] == w.elems[j]
    requires HasType(v.elems[i], FieldsOf(t, |v.elems|)[i]) && HasType(w.elems[i], FieldsOf(t, |v.elems|)[i])
    requires Size(FieldsOf(t, |v.elems|)[i], v.elems[i]) != Size(FieldsOf(t, |v.elems|)[i], w.elems[i])
    ensures Size(t, v) != Size(t, w)
  {
    hide HasType, Size, IsFixed, Serialize, FieldsOf, HeadWidth, TailSize;
    CompositeSize(t, v);
    CompositeSize(t, w);
    TailSizeAt(FieldsOf(t, |v.elems|), v.elems, w.elems, i);
  }

  lemma {:induction false} TwoSizes(t: SszType) returns (v: Value, w: Value)
    requires !IsFixed(t) && WellFormed(t) && Roomy(t)
    ensures HasType(v, t) && HasType(w, t) && Size(t, v) != Size(t, w)
    decreases t
  {
    match t
    case ByteListT(n) => v, w := BytesV([]), BytesV([0]);
    case BitlistT(n) => v, w := BitsV([]), BitsV(seq(8, _ => false));
    case VectorT(e, n) => v, w := TwoVectors(e, n);
    case ListT(e, n) => v, w := TwoLists(e, n);
    case ContainerT(fs) => v, w := TwoContainers(fs);
  }

  lemma TwoLists(e: SszType, n: nat) returns (v: Value, w: Value)
    requires WellFormed(ListT(e, n)) && n >= 1
    ensures HasType(v, ListT(e, n)) && HasType(w, ListT(e, n)) && Size(ListT(e, n), v) != Size(ListT(e, n), w)
  {
    DefaultTyped(e);
    v, w := SeqV([]), SeqV([Default(e)]);
    ListSizes(e, n, Default(e));
  }

  lemma ListSizes(e: SszType, n: nat, x: Value)
    requires WellFormed(ListT(e, n)) && n >= 1 && HasType(x, e)
    ensures HasType(SeqV([]), ListT(e, n)) && HasType(SeqV([x]), ListT(e, n))
    ensures Size(ListT(e, n), SeqV([])) == 0 < Size(ListT(e, n), SeqV([x]))
  {
    var t := ListT(e, n);
    CompositeSize(t, SeqV([]));
    CompositeSize(t, SeqV([x]));
    assert FieldsOf(t, 0) == [] && FieldsOf(t, 1) == [e];
  }

  lemma TwoVectors(e: SszType, n: nat) returns (v: Value, w: Value)
    requires !IsFixed(e) && WellFormed(e) && Roomy(e) && n >= 1
    ensures HasType(v, VectorT(e, n)) && HasType(w, VectorT(e, n))
    ensures Size(VectorT(e, n), v) != Size(VectorT(e, n), w)
    decreases VectorT(e, n), 0
  {
    var x, y := TwoSizes(e);
    var rest := seq(n, _ => Default(e));
    DefaultTyped(e);
    v, w := SeqV(rest[0 := x]), SeqV(rest[0 := y]);
    hide Size, IsFixed;
    RowSizes(VectorT(e, n), v, w, 0);
  }

  lemma TwoContainers(fs: seq<SszType>) returns (v: Value, w: Value)
    requires !IsFixed(ContainerT(fs)) && WellFormed(ContainerT(fs)) && Roomy(ContainerT(fs))
    ensures HasType(v, ContainerT(fs)) && HasType(w, ContainerT(fs))
    ensures Size(ContainerT(fs), v) != Size(ContainerT(fs), w)
    decreases ContainerT(fs), 0
  {
    var f :| f in fs && !IsFixed(f);
    var i :| 0 <= i < |fs| && fs[i] == f;
    var x, y := TwoSizes(fs[i]);
    var rest := Defaults(fs);
    DefaultsTyped(fs);
    v, w := SeqV(rest[i := x]), SeqV(rest[i := y]);
    hide Size, IsFixed, Defaults;
    RowSizes(ContainerT(fs), v, w, i);
  }

  /**
   A type counts as fixed-size exactly when all its values have one size; and a serialized value has its size
   (SszSize.SizeLaw).
   */
  lemma FixedExactly(t: SszType)
    requires WellFormed(t) && Roomy(t)
    ensures IsFixed(t) <==> forall v, w | HasType(v, t) && HasType(w, t) :: Size(t, v) == Size(t, w)
  {
    hide HasType, Size, IsFixed, WellFormed, Roomy, Width;
    if IsFixed(t) {
      forall v, w | HasType(v, t) && HasType(w, t)
        ensures Size(t, v) == Size(t, w)
      {
        FixedSize(t, v);
        FixedSize(t, w);
      }
    } else {
      var v, w := TwoSizes(t);
    }
  }

  /** The same of the bytes written, for a type whose values all serialize. */
  lemma FixedBySerialization(t: SszType)
    requires WellFormed(t) && Roomy(t) && forall v | HasType(v, t) :: Serialize(t, v).Ok?
    ensures IsFixed(t) <==>
      forall v, w | HasType(v, t) && HasType(w, t) :: |Serialize(t, v).value| == |Serialize(t, w).value|
  {
    hide HasType, Size, IsFixed, WellFormed, Roomy, Serialize;
    FixedExactly(t);
    forall v | HasType(v, t)
      ensures |Serialize(t, v).value| == Size(t, v)
    {
      SizeLaw(t, v);
    }
  }
}
