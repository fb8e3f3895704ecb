/** A byte, turned into an eight-bit word and back. */
module ByteWords {
  function Number(b: bv8): nat { b as int }

  function Successor(b: bv8): bv8 { b + 1 }

  /** The word reached from zero in x steps. */
  function Nth(x: nat): bv8
  {
    if x == 0 then 0 else Successor(Nth(x - 1))
  }

  lemma SuccessorNumber(b: bv8)
    requires b != 255
    ensures (b + 1) as int == b as int + 1
  {
  }

  lemma NotLast(b: bv8)
    requires b as int < 255
    ensures b != 255
  {
  }

  lemma NumberStep(b: bv8)
    ensures Number(b) < 255 ==> Number(Successor(b)) == Number(b) + 1
    ensures Number(0) == 0
  {
    if Number(b) < 255 {
      NotLast(b);
      SuccessorNumber(b);
    }
  }

  lemma {:induction false} NthNumber(x: nat)
    requires x < 256
    ensures Number(Nth(x)) == x
  {
    hide Number, Successor;
    NumberStep(0);
    if x > 0 {
      NthNumber(x - 1);
      NumberStep(Nth(x - 1));
    }
  }

  lemma WordBack(b: bv8)
    ensures (b as int) as bv8 == b
  {
  }

  lemma ByteBack(x: nat)
    requires x < 256
    ensures Nth(x) == x as bv8
  {
    hide Nth, Successor;
    NthNumber(x);
    WordBack(Nth(x));
  }

  /** Different bytes are different words. */
  lemma WordsDiffer(x: nat, y: nat)
    requires x < 256 && y < 256 && x as bv8 == y as bv8
    ensures x == y
  {
    hide *;
    ByteBack(x);
    ByteBack(y);
    NthNumber(x);
    NthNumber(y);
  }
}
