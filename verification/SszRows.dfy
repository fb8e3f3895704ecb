/** One unfolding of each reader of a row of fields, successful or not. */
module SszRows {
  import opened Bytes
  import opened SszTypes
  import opened SszCodec

  /** What was read so far, followed by the rest. */
  ghost function Then<T>(done: seq<T>, rest: SszResult<Read<seq<T>>>): SszResult<Read<seq<T>>>
  {
    match rest
    case Err(x) => Err(x)
    case Ok(got) => Ok(Read(done + got.value, got.next))
  }

  lemma HeadStep(fs: seq<SszType>, data: ByteString, pos: nat)
    requires fs != [] && pos <= |data| && AllWellFormed(fs)
    ensures WellFormed(fs[0]) && AllWellFormed(fs[1..]) && HeadWidth(fs) == SlotWidth(fs[0]) + HeadWidth(fs[1..])
    ensures IsFixed(fs[0]) ==>
      var first := Deserialize(fs[0], data, pos, Width(fs[0]));
      && SlotWidth(fs[0]) == Width(fs[0])
      && if first.Err? then ReadHead(fs, data, pos).Err?
         else ReadHead(fs, data, pos) == Then([Inline(first.value.value)], ReadHead(fs[1..], data, first.value.next))
    ensures !IsFixed(fs[0]) ==>
      var first := Take(data, pos, 4);
      && SlotWidth(fs[0]) == 4
      && if first.Err? then ReadHead(fs, data, pos).Err?
         else
           ReadHead(fs, data, pos) ==
           Then([Offset(FromLE(first.value.value))], ReadHead(fs[1..], data, first.value.next))
  {
    hide Deserialize, WellFormed, FromLE;
  }

  lemma HeadEnd(data: ByteString, pos: nat)
    requires pos <= |data|
    ensures ReadHead([], data, pos) == Ok(Read([], pos)) && HeadWidth([]) == 0
  {
  }

  lemma TailStep(fs: seq<SszType>, slots: seq<Slot>, scope: nat, data: ByteString, pos: nat)
    requires fs != [] && |slots| == |fs| && pos <= |data| && AllWellFormed(fs)
    ensures WellFormed(fs[0]) && AllWellFormed(fs[1..])
    ensures slots[0].Inline? ==>
      ReadTail(fs, slots, scope, data, pos) == Then([slots[0].value], ReadTail(fs[1..], slots[1..], scope, data, pos))
    ensures slots[0].Offset? ==>
      var end := NextStart(slots[1..], scope);
      && (end < slots[0].start ==> ReadTail(fs, slots, scope, data, pos).Err?)
      && (end >= slots[0].start ==>
            var first := Deserialize(fs[0], data, pos, end - slots[0].start);
            if first.Err? then ReadTail(fs, slots, scope, data, pos).Err?
            else ReadTail(fs, slots, scope, data, pos) ==
                 Then([first.value.value], ReadTail(fs[1..], slots[1..], scope, data, first.value.next)))
  {
    hide Deserialize, WellFormed;
  }

  lemma TailEnd(scope: nat, data: ByteString, pos: nat)
    requires pos <= |data|
    ensures ReadTail([], [], scope, data, pos) == Ok(Read([], pos))
  {
  }

  lemma ListEmptyCase(t: SszType, data: ByteString, pos: nat)
    requires pos <= |data| && WellFormed(t) && t.ListT?
    ensures Deserialize(t, data, pos, 0) == Ok(Read(SeqV([]), pos))
  {
  }
}
