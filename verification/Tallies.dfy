/** Integer-valued maps read the way Go reads them: an absent key counts as zero. */
module Tallies {
  type Tally = map<string, int>

  function Get(m: Tally, id: string): int { if id in m then m[id] else 0 }

  function Add(m: Tally, id: string, amount: int): Tally { m[id := Get(m, id) + amount] }

  /** The sum of all entries. */
  ghost function Total(m: Tally): int {
    if m == map[] then 0
    else
      var id :| id in m;
      m[id] + Total(m - {id})
  }

  lemma {:induction false} TotalWithout(m: Tally, id: string)
    ensures Total(m) == Get(m, id) + Total(m - {id})
    decreases |m|
  {
    if id !in m {
      assert m - {id} == m;
    } else {
      var first :| first in m && Total(m) == m[first] + Total(m - {first});
      if first != id {
        TotalWithout(m - {first}, id);
        TotalWithout(m - {id}, first);
        assert m - {first} - {id} == m - {id} - {first};
      }
    }
  }

  lemma TotalUpdate(m: Tally, id: string, value: int)
    ensures Total(m[id := value]) == Total(m) - Get(m, id) + value
  {
    TotalWithout(m, id);
    TotalWithout(m[id := value], id);
    assert m[id := value] - {id} == m - {id};
  }

  ghost predicate SameTally(a: Tally, b: Tally) { forall id :: Get(b, id) == Get(a, id) }

  /** One entry moved by `amount`. */
  ghost predicate Moved(a: Tally, b: Tally, id: string, amount: int) {
    forall x :: Get(b, x) == Get(a, x) + if x == id then amount else 0
  }

  lemma AddMoves(m: Tally, id: string, amount: int)
    ensures Moved(m, Add(m, id, amount), id, amount) && Get(Add(m, id, amount), id) == Get(m, id) + amount
  {
  }

  lemma MovedBy(a: Tally, b: Tally, id: string, amount: int)
    requires Moved(a, b, id, amount)
    ensures Get(b, id) == Get(a, id) + amount
  {
  }

  lemma MovedTwice(a: Tally, b: Tally, c: Tally, id: string, first: int, second: int)
    requires Moved(a, b, id, first) && Moved(b, c, id, second)
    ensures Moved(a, c, id, first + second)
  {
  }

  lemma NotMoved(a: Tally, b: Tally, id: string)
    ensures Moved(a, b, id, 0) <==> SameTally(a, b)
    ensures SameTally(a, a)
  {
  }

  lemma DropOneMore<V>(m: map<string, V>, gone: set<string>, id: string)
    ensures m - gone - {id} == m - (gone + {id})
  {
  }

  lemma DropNothing<V>(m: map<string, V>)
    ensures m - {} == m
  {
  }

  lemma {:induction false} TotalWithoutZeros(m: Tally, zeros: set<string>)
    requires forall id :: id in zeros ==> Get(m, id) == 0
    ensures Total(m - zeros) == Total(m)
    decreases |zeros|
  {
    if zeros == {} {
      DropNothing(m);
    } else {
      var id :| id in zeros;
      var rest := zeros - {id};
      TotalWithoutZeros(m, rest);
      TotalWithout(m - rest, id);
      DropOneMore(m, rest, id);
      assert rest + {id} == zeros;
    }
  }

  /** One entry is no more than the sum when none is negative. */
  lemma EntryBelowTotal(m: Tally, id: string)
    requires forall x :: x in m ==> m[x] >= 0
    ensures 0 <= Get(m, id) <= Total(m)
  {
    TotalWithout(m, id);
    NaturalTotal(m - {id});
  }

  lemma {:induction false} NaturalTotal(m: Tally)
    requires forall x :: x in m ==> m[x] >= 0
    ensures Total(m) >= 0
    decreases |m|
  {
    if id :| id in m {
      TotalWithout(m, id);
      NaturalTotal(m - {id});
    }
  }
}
