/**
  Where `encode` puts a labelled field or a checksum field, against where `collect_copyouts` and
  `csum_offset` say it is (vock/src/fuzz/prog_decode.rs). A labelled field is encoded at its own
  width and cut or padded to four bytes, but both searches count at the width of the whole tree and
  past the cut. Main results: `CopyoutsExact`, `CsumOffsetExact` and `FixedImageChecks`.
 */
module SyzFields {
  import opened Prelude
  import opened Checksum
  import opened SyzLayout

  function Min(x: nat, y: nat): (m: nat)
  {
    if x < y then x else y
  }

  // ---- labelled fields

  /** A labelled field, where it is encoded, and where the innermost cut around it falls. */
  datatype Field = Field(node: Arg, off: nat, limit: nat)

  /** Every label of a tree placed at `base`, in the order the search meets them. */
  ghost function Fields(arg: Arg, base: nat, w: nat, limit: nat): (r: seq<Field>)
    decreases arg, 0
  {
    match arg
    case Out(_, inner) => [Field(arg, base, limit)] + Fields(inner, base, RES_WIDTH, Min(limit, base + RES_WIDTH))
    case Struct(fs) => FieldsIn(fs, base, w, limit)
    case Array(fs) => FieldsIn(fs, base, w, limit)
    case Union(c) => Fields(c, base, w, limit)
    case _ => []
  }

  ghost function FieldsIn(fs: seq<Arg>, base: nat, w: nat, limit: nat): (r: seq<Field>)
    decreases fs, 1
  {
    if fs == [] then []
    else Fields(fs[0], base, w, limit) + FieldsIn(fs[1..], base + EncodedLen(fs[0], w), w, limit)
  }

  /** None of the field's four bytes is cut off. */
  ghost predicate Whole(f: Field)
  {
    f.off + RES_WIDTH <= f.limit
  }

  lemma {:induction false} FieldsShape(arg: Arg, base: nat, w: nat, limit: nat)
    ensures |Fields(arg, base, w, limit)| == Labels(arg)
    ensures forall i :: 0 <= i < |Fields(arg, base, w, limit)| ==>
              var f := Fields(arg, base, w, limit)[i]; f.node.Out? && base <= f.off && f.limit <= limit
    decreases arg, 0
  {
    match arg
    case Out(_, inner) => FieldsShape(inner, base, RES_WIDTH, Min(limit, base + RES_WIDTH));
    case Union(c) => FieldsShape(c, base, w, limit);
    case Struct(fs) => FieldsInShape(fs, base, w, limit);
    case Array(fs) => FieldsInShape(fs, base, w, limit);
    case _ =>
  }

  lemma {:induction false} FieldsInShape(fs: seq<Arg>, base: nat, w: nat, limit: nat)
    ensures |FieldsIn(fs, base, w, limit)| == AllLabels(fs)
    ensures forall i :: 0 <= i < |FieldsIn(fs, base, w, limit)| ==>
              var f := FieldsIn(fs, base, w, limit)[i]; f.node.Out? && base <= f.off && f.limit <= limit
    decreases fs, 1
  {
    hide Fields, EncodedLen, Labels;
    if fs != [] {
      FieldsShape(fs[0], base, w, limit);
      FieldsInShape(fs[1..], base + EncodedLen(fs[0], w), w, limit);
    }
  }

  /** `part` stands at position `o` of an image. */
  ghost predicate HoldsAt(image: seq<byte>, o: int, part: seq<byte>)
  {
    0 <= o && o + |part| <= |image| && image[o..o + |part|] == part
  }

  lemma HoldsLeft(a: seq<byte>, b: seq<byte>, o: int, part: seq<byte>)
    requires HoldsAt(a, o, part)
    ensures HoldsAt(a + b, o, part)
  {
    assert (a + b)[o..o + |part|] == a[o..o + |part|];
  }

  lemma HoldsRight(a: seq<byte>, b: seq<byte>, o: int, part: seq<byte>)
    requires HoldsAt(b, o, part)
    ensures HoldsAt(a + b, |a| + o, part)
  {
    assert (a + b)[|a| + o..|a| + o + |part|] == b[o..o + |part|];
  }

  /** What stands within the first four bytes of the inner image stands in the labelled field. */
  lemma HoldsCut(slot: nat, inner: Arg, ctx: Ctx, w: nat, o: int, part: seq<byte>)
    requires Width(w) && HoldsAt(Encode(inner, ctx, RES_WIDTH), o, part) && o + |part| <= RES_WIDTH
    ensures HoldsAt(Encode(Out(slot, inner), ctx, w), o, part)
  {
    var image := Encode(inner, ctx, RES_WIDTH);
    var cut := Resize(image, RES_WIDTH);
    assert Encode(Out(slot, inner), ctx, w) == cut;
    hide Encode;
    assert cut[o..o + |part|] == image[o..o + |part|];
  }

  lemma HoldsItself(image: seq<byte>)
    ensures HoldsAt(image, 0, image)
  {
    assert image[0..|image|] == image;
  }

  lemma EncodeUnfolds(arg: Arg, ctx: Ctx, w: nat)
    requires Width(w)
    ensures arg.Union? ==> Encode(arg, ctx, w) == Encode(arg.chosen, ctx, w)
    ensures arg.Struct? ==> Encode(arg, ctx, w) == EncodeAll(arg.fields, ctx, w)
    ensures arg.Array? ==> Encode(arg, ctx, w) == EncodeAll(arg.elems, ctx, w)
    ensures arg.Csum? ==> Encode(arg, ctx, w) == [0, 0]
    ensures arg.Out? ==> Encode(arg, ctx, w) == Encode(arg, ctx, RES_WIDTH) && |Encode(arg, ctx, w)| == RES_WIDTH
  {
  }

  /** The image holds a whole field's own bytes at its place. */
  lemma {:induction false} FieldBytes(arg: Arg, ctx: Ctx, base: nat, w: nat, limit: nat, i: nat)
    requires Width(w) && i < |Fields(arg, base, w, limit)| && Whole(Fields(arg, base, w, limit)[i])
    ensures var f := Fields(arg, base, w, limit)[i]; HoldsAt(Encode(arg, ctx, w), f.off - base, Encode(f.node, ctx, w))
    decreases arg, 0
  {
    hide Encode, EncodeAll, EncodedLen, HoldsAt;
    EncodeUnfolds(arg, ctx, w);
    match arg
    case Out(slot, inner) =>
      if i == 0 {
        HoldsItself(Encode(arg, ctx, w));
      } else {
        var cut := Min(limit, base + RES_WIDTH);
        var f := Fields(inner, base, RES_WIDTH, cut)[i - 1];
        assert Fields(arg, base, w, limit)[i] == f;
        FieldsShape(inner, base, RES_WIDTH, cut);
        FieldBytes(inner, ctx, base, RES_WIDTH, cut, i - 1);
        EncodeUnfolds(f.node, ctx, w);
        HoldsCut(slot, inner, ctx, w, f.off - base, Encode(f.node, ctx, RES_WIDTH));
      }
    case Union(c) => FieldBytes(c, ctx, base, w, limit, i);
    case Struct(fs) => FieldBytesIn(fs, ctx, base, w, limit, i);
    case Array(fs) => FieldBytesIn(fs, ctx, base, w, limit, i);
  }

  lemma {:induction false} FieldBytesIn(fs: seq<Arg>, ctx: Ctx, base: nat, w: nat, limit: nat, i: nat)
    requires Width(w) && i < |FieldsIn(fs, base, w, limit)| && Whole(FieldsIn(fs, base, w, limit)[i])
    ensures var f := FieldsIn(fs, base, w, limit)[i];
            HoldsAt(EncodeAll(fs, ctx, w), f.off - base, Encode(f.node, ctx, w))
    decreases fs, 1
  {
    hide Fields, Encode, EncodedLen, HoldsAt;
    var head, n := Fields(fs[0], base, w, limit), EncodedLen(fs[0], w);
    var a, b := Encode(fs[0], ctx, w), EncodeAll(fs[1..], ctx, w);
    EncodeLength(fs[0], ctx, w);
    var f := FieldsIn(fs, base, w, limit)[i];
    if i < |head| {
      FieldBytes(fs[0], ctx, base, w, limit, i);
      HoldsLeft(a, b, f.off - base, Encode(f.node, ctx, w));
    } else {
      FieldBytesIn(fs[1..], ctx, base + n, w, limit, i - |head|);
      HoldsRight(a, b, f.off - base - n, Encode(f.node, ctx, w));
    }
  }

  // ---- the recorded places

  /** An entry names the label and the place of a field that is wholly in the image. */
  ghost predicate Right(c: Copyout, f: Field)
  {
    f.node.Out? && c == Copyout(f.node.slot, f.off, RES_WIDTH) && Whole(f)
  }

  ghost predicate AllRight(cs: seq<Copyout>, fs: seq<Field>)
  {
    |cs| == |fs| && forall i :: 0 <= i < |cs| ==> Right(cs[i], fs[i])
  }

  lemma AllRightConcat(a: seq<Copyout>, b: seq<Copyout>, c: seq<Field>, d: seq<Field>)
    requires |a| == |c| && |b| == |d|
    ensures AllRight(a + b, c + d) <==> AllRight(a, c) && AllRight(b, d)
  {
    hide Right;
    if AllRight(a + b, c + d) {
      forall i | 0 <= i < |a| ensures Right(a[i], c[i]) {
        assert (a + b)[i] == a[i] && (c + d)[i] == c[i];
      }
      forall i | 0 <= i < |b| ensures Right(b[i], d[i]) {
        assert (a + b)[|a| + i] == b[i] && (c + d)[|c| + i] == d[i];
      }
    }
  }

  /** Inside a labelled field: every label has only empty values before it. */
  ghost predicate Leading(arg: Arg)
    decreases arg, 0
  {
    match arg
    case Out(_, inner) => Leading(inner)
    case Struct(fs) => AllLeading(fs)
    case Array(fs) => AllLeading(fs)
    case Union(c) => Leading(c)
    case _ => true
  }

  ghost predicate AllLeading(fs: seq<Arg>)
    decreases fs, 1
  {
    fs == [] || (Leading(fs[0]) && (if EncodedLen(fs[0], RES_WIDTH) == 0 then AllLeading(fs[1..]) else AllLabels(fs[1..]) == 0))
  }

  /** So it is inside every labelled field of the tree. */
  ghost predicate Headed(arg: Arg)
    decreases arg, 0
  {
    match arg
    case Out(_, inner) => Leading(inner)
    case Struct(fs) => AllHeaded(fs)
    case Array(fs) => AllHeaded(fs)
    case Union(c) => Headed(c)
    case _ => true
  }

  ghost predicate AllHeaded(fs: seq<Arg>)
    decreases fs, 1
  {
    fs == [] || (Headed(fs[0]) && AllHeaded(fs[1..]))
  }

  /** What is empty at one width is empty at any. */
  lemma {:induction false} EmptyAnyWidth(arg: Arg, v: nat, w: nat)
    requires v > 0 && w > 0
    ensures EncodedLen(arg, v) == 0 <==> EncodedLen(arg, w) == 0
    decreases arg, 0
  {
    match arg
    case Union(c) => EmptyAnyWidth(c, v, w);
    case Struct(fs) => EmptyAllWidths(fs, v, w);
    case Array(fs) => EmptyAllWidths(fs, v, w);
    case _ =>
  }

  lemma {:induction false} EmptyAllWidths(fs: seq<Arg>, v: nat, w: nat)
    requires v > 0 && w > 0
    ensures EncodedLens(fs, v) == 0 <==> EncodedLens(fs, w) == 0
    decreases fs, 1
  {
    if fs != [] {
      EmptyAnyWidth(fs[0], v, w);
      EmptyAllWidths(fs[1..], v, w);
    }
  }

  /** In a labelled field whose cut comes four bytes on, exactly leading labels are recorded right. */
  lemma {:induction false} LeadingExact(arg: Arg, base: nat, w: nat)
    requires w > 0
    ensures AllRight(CollectCopyouts(arg, base, w), Fields(arg, base, RES_WIDTH, base + RES_WIDTH)) <==> Leading(arg)
    decreases arg, 0
  {
    match arg
    case Out(slot, inner) =>
      LeadingExact(inner, base, w);
      var cut := Min(base + RES_WIDTH, base + RES_WIDTH);
      CollectCount(inner, base, w);
      FieldsShape(inner, base, RES_WIDTH, cut);
      AllRightConcat([Copyout(slot, base, RES_WIDTH)], CollectCopyouts(inner, base, w),
                     [Field(arg, base, base + RES_WIDTH)], Fields(inner, base, RES_WIDTH, cut));
    case Union(c) => LeadingExact(c, base, w);
    case Struct(fs) => AllLeadingExact(fs, base, w);
    case Array(fs) => AllLeadingExact(fs, base, w);
    case _ =>
  }

  lemma {:induction false} AllLeadingExact(fs: seq<Arg>, base: nat, w: nat)
    requires w > 0
    ensures AllRight(CollectAll(fs, base, w), FieldsIn(fs, base, RES_WIDTH, base + RES_WIDTH)) <==> AllLeading(fs)
    decreases fs, 1
  {
    hide CollectCopyouts, Fields, EncodedLen, Leading, AllRight, Labels;
    if fs == [] {
      NoneWrong();
    } else {
      var n, m := EncodedLen(fs[0], w), EncodedLen(fs[0], RES_WIDTH);
      var limit := base + RES_WIDTH;
      var rest, there := CollectAll(fs[1..], base + n, w), FieldsIn(fs[1..], base + m, RES_WIDTH, limit);
      LeadingExact(fs[0], base, w);
      CollectCount(fs[0], base, w);
      CollectCountAll(fs[1..], base + n, w);
      FieldsShape(fs[0], base, RES_WIDTH, limit);
      FieldsInShape(fs[1..], base + m, RES_WIDTH, limit);
      AllRightConcat(CollectCopyouts(fs[0], base, w), rest, Fields(fs[0], base, RES_WIDTH, limit), there);
      EmptyAnyWidth(fs[0], w, RES_WIDTH);
      if m == 0 {
        AllLeadingExact(fs[1..], base, w);
      } else {
        BeyondTheCut(rest, there, base + m, limit);
      }
    }
  }

  lemma NoneWrong()
    ensures AllRight([], [])
  {
  }

  lemma BeyondTheCut(cs: seq<Copyout>, fs: seq<Field>, from: nat, limit: nat)
    requires |cs| == |fs| && from + RES_WIDTH > limit
    requires forall i :: 0 <= i < |fs| ==> from <= fs[i].off && fs[i].limit <= limit
    ensures AllRight(cs, fs) <==> fs == []
  {
    if fs != [] {
      assert !Right(cs[0], fs[0]);
    }
  }

  lemma {:induction false} HeadedExact(arg: Arg, base: nat, w: nat, limit: nat)
    requires w > 0 && base + EncodedLen(arg, w) <= limit
    ensures AllRight(CollectCopyouts(arg, base, w), Fields(arg, base, w, limit)) <==> Headed(arg)
    decreases arg, 0
  {
    match arg
    case Out(slot, inner) =>
      LeadingExact(inner, base, w);
      CollectCount(inner, base, w);
      FieldsShape(inner, base, RES_WIDTH, base + RES_WIDTH);
      AllRightConcat([Copyout(slot, base, RES_WIDTH)], CollectCopyouts(inner, base, w),
                     [Field(arg, base, limit)], Fields(inner, base, RES_WIDTH, base + RES_WIDTH));
    case Union(c) => HeadedExact(c, base, w, limit);
    case Struct(fs) => AllHeadedExact(fs, base, w, limit);
    case Array(fs) => AllHeadedExact(fs, base, w, limit);
    case _ =>
  }

  lemma {:induction false} AllHeadedExact(fs: seq<Arg>, base: nat, w: nat, limit: nat)
    requires w > 0 && base + EncodedLens(fs, w) <= limit
    ensures AllRight(CollectAll(fs, base, w), FieldsIn(fs, base, w, limit)) <==> AllHeaded(fs)
    decreases fs, 1
  {
    hide CollectCopyouts, Fields, EncodedLen, Headed, AllRight, Labels;
    if fs == [] {
      NoneWrong();
    } else {
      var n := EncodedLen(fs[0], w);
      HeadedExact(fs[0], base, w, limit);
      AllHeadedExact(fs[1..], base + n, w, limit);
      CollectCount(fs[0], base, w);
      CollectCountAll(fs[1..], base + n, w);
      FieldsShape(fs[0], base, w, limit);
      FieldsInShape(fs[1..], base + n, w, limit);
      AllRightConcat(CollectCopyouts(fs[0], base, w), CollectAll(fs[1..], base + n, w), Fields(fs[0], base, w, limit),
                     FieldsIn(fs[1..], base + n, w, limit));
    }
  }

  /**
    Every recorded read-back is the place of its own label's field, whole in the image, if and only
    if inside labelled fields every label has only empty values before it.
   */
  lemma CopyoutsExact(arg: Arg, base: nat, w: nat)
    requires Width(w)
    ensures AllRight(CollectCopyouts(arg, base, w), Fields(arg, base, w, base + EncodedLen(arg, w))) <==> Headed(arg)
  {
    HeadedExact(arg, base, w, base + EncodedLen(arg, w));
  }

  /** And then the image holds that field's four bytes there, for every context. */
  lemma CopyoutBytes(arg: Arg, ctx: Ctx, base: nat, w: nat, i: nat)
    requires Width(w) && Headed(arg) && i < |CollectCopyouts(arg, base, w)|
    ensures var c, fields := CollectCopyouts(arg, base, w)[i], Fields(arg, base, w, base + EncodedLen(arg, w));
            && i < |fields| && fields[i].node.Out? && c == Copyout(fields[i].node.slot, fields[i].off, RES_WIDTH)
            && HoldsAt(Encode(arg, ctx, w), c.off - base, Encode(fields[i].node, ctx, w))
  {
    hide CollectCopyouts, Fields, Headed, Encode, EncodedLen, HoldsAt;
    CopyoutsExact(arg, base, w);
    var limit := base + EncodedLen(arg, w);
    assert Right(CollectCopyouts(arg, base, w)[i], Fields(arg, base, w, limit)[i]);
    FieldBytes(arg, ctx, base, w, limit, i);
  }

  /** With a label behind another one in the same field, an entry points past the field it names. */
  lemma NestedLabelMisplaced()
    ensures var arg := Out(0, Struct([Out(1, Int(7)), Out(2, Int(8))]));
            exists c :: c in CollectCopyouts(arg, 0, 8) && c.off >= EncodedLen(arg, 8)
  {
    var fs := [Out(1, Int(7)), Out(2, Int(8))];
    var arg := Out(0, Struct(fs));
    assert fs[1..][1..] == [];
    assert CollectAll(fs[1..], 4, 8) == CollectCopyouts(fs[1], 4, 8) + CollectAll([], 8, 8);
    assert CollectAll(fs, 0, 8) == [Copyout(1, 0, RES_WIDTH)] + CollectAll(fs[1..], 4, 8);
    assert CollectCopyouts(arg, 0, 8)[2] == Copyout(2, 4, RES_WIDTH);
  }

  // ---- checksum fields

  /** Where the first checksum field of a tree is encoded, and where the cut around it falls. */
  ghost function CsumPlace(arg: Arg, base: nat, w: nat, limit: nat): (r: Option<(nat, nat)>)
    decreases arg, 0
  {
    match arg
    case Csum => Some((base, limit))
    case Out(_, inner) => CsumPlace(inner, base, RES_WIDTH, Min(limit, base + RES_WIDTH))
    case Struct(fs) => CsumPlaceIn(fs, base, w, limit)
    case Array(fs) => CsumPlaceIn(fs, base, w, limit)
    case Union(c) => CsumPlace(c, base, w, limit)
    case _ => None
  }

  ghost function CsumPlaceIn(fs: seq<Arg>, base: nat, w: nat, limit: nat): (r: Option<(nat, nat)>)
    decreases fs, 1
  {
    if fs == [] then None
    else
      var p := CsumPlace(fs[0], base, w, limit);
      if p.Some? then p else CsumPlaceIn(fs[1..], base + EncodedLen(fs[0], w), w, limit)
  }

  /** Both bytes of the field are in the image. */
  ghost predicate Kept(p: (nat, nat))
  {
    p.0 + 2 <= p.1
  }

  /** They are clear there before the checksum is computed. */
  lemma {:induction false} CsumBytes(arg: Arg, ctx: Ctx, base: nat, w: nat, limit: nat)
    requires Width(w) && CsumPlace(arg, base, w, limit).Some? && Kept(CsumPlace(arg, base, w, limit).value)
    ensures HoldsAt(Encode(arg, ctx, w), CsumPlace(arg, base, w, limit).value.0 - base, [0, 0])
    ensures CsumPlace(arg, base, w, limit).value.1 <= limit
    decreases arg, 0
  {
    hide Encode, EncodeAll, EncodedLen, HoldsAt;
    EncodeUnfolds(arg, ctx, w);
    match arg
    case Csum => HoldsItself([0, 0]);
    case Out(slot, inner) =>
      var cut := Min(limit, base + RES_WIDTH);
      CsumBytes(inner, ctx, base, RES_WIDTH, cut);
      HoldsCut(slot, inner, ctx, w, CsumPlace(inner, base, RES_WIDTH, cut).value.0 - base, [0, 0]);
    case Union(c) => CsumBytes(c, ctx, base, w, limit);
    case Struct(fs) => CsumBytesIn(fs, ctx, base, w, limit);
    case Array(fs) => CsumBytesIn(fs, ctx, base, w, limit);
  }

  lemma {:induction false} CsumBytesIn(fs: seq<Arg>, ctx: Ctx, base: nat, w: nat, limit: nat)
    requires Width(w) && CsumPlaceIn(fs, base, w, limit).Some? && Kept(CsumPlaceIn(fs, base, w, limit).value)
    ensures HoldsAt(EncodeAll(fs, ctx, w), CsumPlaceIn(fs, base, w, limit).value.0 - base, [0, 0])
    ensures CsumPlaceIn(fs, base, w, limit).value.1 <= limit
    decreases fs, 1
  {
    hide CsumPlace, Encode, EncodedLen, HoldsAt;
    var a, b := Encode(fs[0], ctx, w), EncodeAll(fs[1..], ctx, w);
    var off, n := CsumPlaceIn(fs, base, w, limit).value.0, EncodedLen(fs[0], w);
    EncodeLength(fs[0], ctx, w);
    if CsumPlace(fs[0], base, w, limit).Some? {
      CsumBytes(fs[0], ctx, base, w, limit);
      HoldsLeft(a, b, off - base, [0, 0]);
    } else {
      CsumBytesIn(fs[1..], ctx, base + n, w, limit);
      HoldsRight(a, b, off - base - n, [0, 0]);
    }
  }

  /** The search finds a field exactly when there is one. */
  lemma {:induction false} CsumFound(arg: Arg, base: nat, w: nat, to: nat, v: nat, limit: nat)
    ensures CsumOffset(arg, base, w).Some? <==> CsumPlace(arg, to, v, limit).Some?
    decreases arg, 0
  {
    match arg
    case Out(_, inner) => CsumFound(inner, base, w, to, RES_WIDTH, Min(limit, to + RES_WIDTH));
    case Union(c) => CsumFound(c, base, w, to, v, limit);
    case Struct(fs) => CsumFoundIn(fs, base, w, to, v, limit);
    case Array(fs) => CsumFoundIn(fs, base, w, to, v, limit);
    case _ =>
  }

  lemma {:induction false} CsumFoundIn(fs: seq<Arg>, base: nat, w: nat, to: nat, v: nat, limit: nat)
    ensures CsumOffsetIn(fs, base, w).Some? <==> CsumPlaceIn(fs, to, v, limit).Some?
    decreases fs, 1
  {
    if fs != [] {
      CsumFound(fs[0], base, w, to, v, limit);
      CsumFoundIn(fs[1..], base + EncodedLen(fs[0], w), w, to + EncodedLen(fs[0], v), v, limit);
    }
  }

  /** In a labelled field the checksum comes within its first two bytes. */
  ghost predicate Within(inner: Arg)
  {
    var p := CsumOffset(inner, 0, RES_WIDTH); p.None? || p.value <= 2
  }

  /** So it is wherever the first checksum field of the tree lies in a labelled field. */
  ghost predicate Reached(arg: Arg)
    decreases arg, 0
  {
    match arg
    case Out(_, inner) => Within(inner)
    case Struct(fs) => ReachedIn(fs)
    case Array(fs) => ReachedIn(fs)
    case Union(c) => Reached(c)
    case _ => true
  }

  ghost predicate ReachedIn(fs: seq<Arg>)
    decreases fs, 1
  {
    fs == [] || (if CsumOffset(fs[0], 0, RES_WIDTH).Some? then Reached(fs[0]) else ReachedIn(fs[1..]))
  }

  /** Up to two bytes in, counting at any width is the same: only plain data is that short. */
  lemma {:induction false} ShortAnyWidth(arg: Arg, w: nat)
    ensures EncodedLen(arg, RES_WIDTH) <= 2 ==> EncodedLen(arg, w) == EncodedLen(arg, RES_WIDTH)
    decreases arg, 0
  {
    match arg
    case Union(c) => ShortAnyWidth(c, w);
    case Struct(fs) => ShortAllWidths(fs, w);
    case Array(fs) => ShortAllWidths(fs, w);
    case _ =>
  }

  lemma {:induction false} ShortAllWidths(fs: seq<Arg>, w: nat)
    ensures EncodedLens(fs, RES_WIDTH) <= 2 ==> EncodedLens(fs, w) == EncodedLens(fs, RES_WIDTH)
    decreases fs, 1
  {
    if fs != [] {
      ShortAnyWidth(fs[0], w);
      ShortAllWidths(fs[1..], w);
    }
  }

  lemma {:induction false} CsumShift(arg: Arg, base: nat, w: nat)
    ensures CsumOffset(arg, base, w).Some? <==> CsumOffset(arg, 0, w).Some?
    ensures CsumOffset(arg, base, w).Some? ==> CsumOffset(arg, base, w).value == base + CsumOffset(arg, 0, w).value
    decreases arg, 0
  {
    match arg
    case Out(_, inner) => CsumShift(inner, base, w);
    case Union(c) => CsumShift(c, base, w);
    case Struct(fs) => CsumShiftIn(fs, base, w);
    case Array(fs) => CsumShiftIn(fs, base, w);
    case _ =>
  }

  lemma {:induction false} CsumShiftIn(fs: seq<Arg>, base: nat, w: nat)
    ensures CsumOffsetIn(fs, base, w).Some? <==> CsumOffsetIn(fs, 0, w).Some?
    ensures CsumOffsetIn(fs, base, w).Some? ==> CsumOffsetIn(fs, base, w).value == base + CsumOffsetIn(fs, 0, w).value
    decreases fs, 1
  {
    if fs != [] {
      CsumShift(fs[0], base, w);
      CsumShiftIn(fs[1..], base + EncodedLen(fs[0], w), w);
      CsumShiftIn(fs[1..], EncodedLen(fs[0], w), w);
    }
  }

  /**
    Inside a labelled field at `base`, cut at `base + 4`: the field is where counting at label width
    puts it, and if the cut spares it, counting at any width from the same start finds it there.
   */
  lemma {:induction false} InsideExact(arg: Arg, base: nat, from: nat, at: nat, w: nat)
    requires w >= 1 && base <= at && CsumOffset(arg, 0, RES_WIDTH).Some?
    ensures var p, q := CsumOffset(arg, from, w), CsumPlace(arg, at, RES_WIDTH, base + RES_WIDTH);
            && p.Some? && q.Some? && q.value.1 == base + RES_WIDTH
            && q.value.0 == at + CsumOffset(arg, 0, RES_WIDTH).value
            && (Kept(q.value) && from == at ==> p.value == q.value.0)
    decreases arg, 0
  {
    match arg
    case Out(_, inner) => InsideExact(inner, base, from, at, w);
    case Union(c) => InsideExact(c, base, from, at, w);
    case Struct(fs) => InsideExactIn(fs, base, from, at, w);
    case Array(fs) => InsideExactIn(fs, base, from, at, w);
    case _ =>
  }

  lemma {:induction false} InsideExactIn(fs: seq<Arg>, base: nat, from: nat, at: nat, w: nat)
    requires w >= 1 && base <= at && CsumOffsetIn(fs, 0, RES_WIDTH).Some?
    ensures var p, q := CsumOffsetIn(fs, from, w), CsumPlaceIn(fs, at, RES_WIDTH, base + RES_WIDTH);
            && p.Some? && q.Some? && q.value.1 == base + RES_WIDTH
            && q.value.0 == at + CsumOffsetIn(fs, 0, RES_WIDTH).value
            && (Kept(q.value) && from == at ==> p.value == q.value.0)
    decreases fs, 1
  {
    hide CsumOffset, CsumPlace, EncodedLen;
    var head := CsumOffset(fs[0], 0, RES_WIDTH);
    if head.Some? {
      InsideExact(fs[0], base, from, at, w);
    } else {
      CsumFound(fs[0], from, w, at, RES_WIDTH, base + RES_WIDTH);
      CsumFound(fs[0], 0, RES_WIDTH, at, RES_WIDTH, base + RES_WIDTH);
      var n, m := EncodedLen(fs[0], w), EncodedLen(fs[0], RES_WIDTH);
      CsumShiftIn(fs[1..], m, RES_WIDTH);
      InsideExactIn(fs[1..], base, from + n, at + m, w);
      ShortAnyWidth(fs[0], w);
    }
  }

  lemma {:induction false} OutsideExact(arg: Arg, base: nat, w: nat, limit: nat)
    requires w >= 1 && base + EncodedLen(arg, w) <= limit && CsumOffset(arg, base, w).Some?
    ensures var p, q := CsumOffset(arg, base, w), CsumPlace(arg, base, w, limit);
            q.Some? && (p.value == q.value.0 && Kept(q.value) <==> Reached(arg))
    decreases arg, 0
  {
    match arg
    case Out(_, inner) =>
      CsumFound(inner, base, w, 0, RES_WIDTH, 0);
      CsumFound(inner, 0, RES_WIDTH, 0, RES_WIDTH, 0);
      InsideExact(inner, base, base, base, w);
    case Union(c) => OutsideExact(c, base, w, limit);
    case Struct(fs) => OutsideExactIn(fs, base, w, limit);
    case Array(fs) => OutsideExactIn(fs, base, w, limit);
    case _ =>
  }

  lemma {:induction false} OutsideExactIn(fs: seq<Arg>, base: nat, w: nat, limit: nat)
    requires w >= 1 && base + EncodedLens(fs, w) <= limit && CsumOffsetIn(fs, base, w).Some?
    ensures var p, q := CsumOffsetIn(fs, base, w), CsumPlaceIn(fs, base, w, limit);
            q.Some? && (p.value == q.value.0 && Kept(q.value) <==> ReachedIn(fs))
    decreases fs, 1
  {
    hide CsumOffset, CsumPlace, EncodedLen, Reached;
    CsumFound(fs[0], base, w, base, w, limit);
    CsumFound(fs[0], 0, RES_WIDTH, base, w, limit);
    if CsumOffset(fs[0], base, w).Some? {
      OutsideExact(fs[0], base, w, limit);
    } else {
      OutsideExactIn(fs[1..], base + EncodedLen(fs[0], w), w, limit);
    }
  }

  /**
    `csum_offset` finds a field exactly when the tree has one, and it is that field's place, whole in
    the image, if and only if the field is not more than two bytes into a labelled field.
   */
  lemma CsumOffsetExact(arg: Arg, base: nat, w: nat)
    requires Width(w)
    ensures var p, q := CsumOffset(arg, base, w), CsumPlace(arg, base, w, base + EncodedLen(arg, w));
            && (p.Some? <==> q.Some?)
            && (p.Some? ==> (p.value == q.value.0 && Kept(q.value) <==> Reached(arg)))
  {
    var limit := base + EncodedLen(arg, w);
    CsumFound(arg, base, w, base, w, limit);
    if CsumOffset(arg, base, w).Some? {
      OutsideExact(arg, base, w, limit);
    }
  }

  /**
    Wherever the search puts the field, once `fix_csums` has run the checksum of the whole image is
    zero exactly when that place is even or the cleared image sums to a multiple of 257. Without room
    nothing happens; at the field's own place there is room, and the image was clear to begin with.
   */
  lemma FixedImageChecks(arg: Arg, ctx: Ctx, w: nat, off: nat)
    requires Width(w) && CsumOffset(arg, 0, w) == Some(off)
    ensures var image := Encode(arg, ctx, w);
            if off + 2 > |image| then FixedCsums(image, arg, w) == image && !Reached(arg)
            else && (CsumSpec(FixedCsums(image, arg, w)) == 0
                     <==> off % 2 == 0 || WordSum(Cleared(image, off)) % 257 == 0)
                 && (Reached(arg) ==> Cleared(image, off) == image)
  {
    hide Encode, CsumOffset, CsumPlace, EncodedLen, Reached, WordSum, OnesComplement;
    var image := Encode(arg, ctx, w);
    if Reached(arg) {
      CsumOffsetExact(arg, 0, w);
      CsumBytes(arg, ctx, 0, w, EncodedLen(arg, w));
      ClearThere(image, off);
    }
    if off + 2 <= |image| {
      PatchedChecks(image, off);
    }
  }

  lemma ClearThere(image: seq<byte>, off: nat)
    requires HoldsAt(image, off, [0, 0])
    ensures off + 2 <= |image| && Cleared(image, off) == image
  {
    var zeros: seq<byte> := [0, 0];
    assert image[off] == image[off..off + |zeros|][0] && image[off + 1] == image[off..off + |zeros|][1];
  }

  /** A checksum behind an integer in a labelled field: the field is cut away, and the search lands on a neighbour. */
  lemma LabelledCsumMisplaced()
    ensures var field := Out(0, Struct([Int(1), Csum]));
            var arg := Struct([field, Int(5)]);
            && !Reached(arg) && CsumOffset(arg, 0, 8) == Some(8)
            && EncodedLen(field, 8) == 4 && EncodedLen(arg, 8) == 12
            && CsumPlace(arg, 0, 8, 12) == Some((4, 4))
  {
    var inner := [Int(1), Csum];
    var field := Out(0, Struct(inner));
    var fs := [field, Int(5)];
    assert inner[1..] == [Csum] && fs[1..] == [Int(5)] && [Int(5)][1..] == [];
    assert CsumOffsetIn(inner, 0, RES_WIDTH) == CsumOffsetIn([Csum], RES_WIDTH, RES_WIDTH) == Some(4);
    assert CsumOffsetIn(inner, 0, 8) == CsumOffsetIn([Csum], 8, 8) == Some(8);
    assert CsumPlaceIn(inner, 0, RES_WIDTH, 4) == CsumPlaceIn([Csum], 4, RES_WIDTH, 4) == Some((4, 4));
    assert CsumPlace(field, 0, 8, 12) == Some((4, 4));
    assert EncodedLens(fs, 8) == 4 + EncodedLens([Int(5)], 8) == 12;
    assert CsumOffset(field, 0, 8) == Some(8) && CsumOffset(field, 0, RES_WIDTH) == Some(4);
    assert !Within(Struct(inner)) && !Reached(field) && !ReachedIn(fs);
  }

  lemma SmallWordSum(s: seq<byte>)
    requires s == [1, 0, 0, 0, 5, 0, 0, 0, 0, 0, 0, 0]
    ensures WordSum(s) == 6
  {
    hide WordSum;
    forall i: nat | i < 12 ensures WordSum(s[..i + 1]) == WordSum(s[..i]) + Weighted(i, s[i]) {
      WordSumStep(s, i);
    }
    assert s[..0] == [] && s[..12] == s;
    assert WordSum([]) == 0 by { EmptyWordSum(); }
    assert WordSum(s[..1]) == 1 && WordSum(s[..2]) == 1 && WordSum(s[..3]) == 1 && WordSum(s[..4]) == 1;
    assert WordSum(s[..5]) == 6 && WordSum(s[..6]) == 6 && WordSum(s[..7]) == 6 && WordSum(s[..8]) == 6;
    assert WordSum(s[..9]) == 6 && WordSum(s[..10]) == 6 && WordSum(s[..11]) == 6;
  }

  lemma EmptyWordSum()
    ensures WordSum([]) == 0
  {
  }

  lemma MisplacedImage(ctx: Ctx)
    ensures var arg := Struct([Out(0, Struct([Int(1), Csum])), Int(5)]);
            Encode(arg, ctx, 8) == [1, 0, 0, 0, 5, 0, 0, 0, 0, 0, 0, 0]
    ensures Encode(Int(5), ctx, 8) == [5, 0, 0, 0, 0, 0, 0, 0]
  {
    hide EncodeAll, LeBytes;
    LeLiterals();
    var inner := [Int(1), Csum];
    var fs := [Out(0, Struct(inner)), Int(5)];
    EncodePair(inner[0], inner[1], ctx, RES_WIDTH);
    assert Encode(Struct(inner), ctx, RES_WIDTH) == [1, 0, 0, 0] + [0, 0];
    assert Encode(fs[0], ctx, 8) == [1, 0, 0, 0];
    EncodePair(fs[0], fs[1], ctx, 8);
  }

  /** There `fix_csums` turns the neighbouring integer 5 into another number. */
  lemma NeighbourOverwritten(ctx: Ctx)
    ensures var arg := Struct([Out(0, Struct([Int(1), Csum])), Int(5)]);
            var image := Encode(arg, ctx, 8);
            |image| == 12 && image[4..] == Encode(Int(5), ctx, 8) && FixedCsums(image, arg, 8)[4..] != image[4..]
  {
    hide Encode, CsumOffset, WordSum;
    LabelledCsumMisplaced();
    MisplacedImage(ctx);
    var arg := Struct([Out(0, Struct([Int(1), Csum])), Int(5)]);
    var image := Encode(arg, ctx, 8);
    assert Cleared(image, 8) == image;
    SmallWordSum(image);
    assert FixedCsums(image, arg, 8) == Patched(image, 8);
    assert FixedCsums(image, arg, 8)[4..][4] == 0xf9 && image[4..][4] == 0;
  }

  lemma EncodePair(a: Arg, b: Arg, ctx: Ctx, w: nat)
    requires Width(w)
    ensures EncodeAll([a, b], ctx, w) == Encode(a, ctx, w) + Encode(b, ctx, w)
  {
    hide Encode;
    assert [a, b] == [a] + [b];
    EncodeConcat([a], [b], ctx, w);
    EncodeOne(a, ctx, w);
    EncodeOne(b, ctx, w);
  }

  lemma LeLiterals()
    ensures LeBytes(1, 4) == [1, 0, 0, 0] && LeBytes(5, 8) == [5, 0, 0, 0, 0, 0, 0, 0]
  {
    LeZeros(3);
    LeZeros(7);
    assert LeBytes(1, 4) == [1] + LeBytes(0, 3);
    assert LeBytes(5, 8) == [5] + LeBytes(0, 7);
  }

}
