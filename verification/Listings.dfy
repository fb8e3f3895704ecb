/** Lists of distinct keys and the sets they list. */
module Listings {
  ghost predicate Lists(s: seq<nat>, members: set<nat>)
  {
    (forall i, j | 0 <= i < j < |s| :: s[i] != s[j]) && (forall x :: x in s <==> x in members)
  }

  lemma ListsAppend(s: seq<nat>, members: set<nat>, x: nat)
    requires Lists(s, members) && x !in members
    ensures Lists(s + [x], members + {x})
  {
  }

  lemma ListsFront(s: seq<nat>, members: set<nat>)
    requires Lists(s, members) && s != []
    ensures s[|s| - 1] in members && Lists(s[..|s| - 1], members - {s[|s| - 1]})
  {
  }

  lemma ListsTail(s: seq<nat>, members: set<nat>)
    requires Lists(s, members) && s != []
    ensures s[0] in members && Lists(s[1..], members - {s[0]})
  {
  }

  lemma {:induction false} ListsConcat(s: seq<nat>, a: set<nat>, t: seq<nat>, b: set<nat>)
    requires Lists(s, a) && Lists(t, b) && a !! b
    ensures Lists(s + t, a + b)
    decreases |t|
  {
    hide Lists;
    if t == [] {
      EmptyListSet(b);
      assert s + t == s && a + b == a;
    } else {
      var front, last := t[..|t| - 1], t[|t| - 1];
      ListsFront(t, b);
      ListsConcat(s, a, front, b - {last});
      ListsAppend(s + front, a + (b - {last}), last);
      assert s + front + [last] == s + t && a + (b - {last}) + {last} == a + b;
    }
  }

  lemma EmptyList()
    ensures Lists([], {})
  {
  }

  lemma OneList(x: nat)
    ensures Lists([x], {x})
  {
  }

  lemma EmptyListSet(members: set<nat>)
    ensures Lists([], members) ==> members == {}
  {
    assert Lists([], members) ==> members == {};
  }
}
