/** Process-wide subscription and comparator state (src/contexts/ConveniosContext.tsx). */
module ConveniosContext {
  import opened Wrappers
  import opened Sequences

  /** Capacity of the comparator. */
  const ComparadorCapacity: nat := 3

  /** `set.delete(x)` on an insertion-ordered set: drops `x`, keeps the others in order. */
  function Without(s: seq<string>, x: string): (r: seq<string>)
    ensures x !in r
    ensures forall y :: y in r <==> y in s && y != x
    ensures IsSubsequence(r, s)
    ensures NoDuplicates(s) ==> NoDuplicates(r)
    ensures NoDuplicates(s) && x in s ==> |r| == |s| - 1
    ensures x !in s ==> r == s
    decreases |s|
  {
    if s == [] then []
    else if s[0] == x then Without(s[1..], x)
    else
      var rest := Without(s[1..], x);
      assert NoDuplicates(s) ==> s[0] !in s[1..];
      NoDuplicatesCons(s[0], rest);
      [s[0]] + rest
  }

  /** The updater `toggleComparador` hands to the state setter: remove a present
      id; otherwise add it at the end, first deleting the earliest-inserted id
      (`Array.from(newSet)[0]`) when the selection already holds three. */
  function Toggled(prev: seq<string>, id: string): (r: seq<string>)
    ensures id in r <==> id !in prev
    ensures forall y :: y in r && y != id ==> y in prev
    ensures id !in prev && |prev| < ComparadorCapacity ==> forall y :: y in prev ==> y in r
  {
    if id in prev then Without(prev, id)
    else if |prev| >= ComparadorCapacity then Without(prev, prev[0]) + [id]
    else prev + [id]
  }

  /** A comparator state the toggles keep: at most three ids, none twice. */
  predicate ValidComparador(s: seq<string>) {
    |s| <= ComparadorCapacity && NoDuplicates(s)
  }

  /** In a duplicate-free sequence, deleting the first element leaves the rest. */
  lemma WithoutFirst(s: seq<string>)
    requires s != [] && NoDuplicates(s)
    ensures Without(s, s[0]) == s[1..]
  {
    assert s[0] !in s[1..];
  }

  /** Every toggle keeps the comparator bounded by three and duplicate-free. */
  lemma ToggleKeepsValid(prev: seq<string>, id: string)
    requires ValidComparador(prev)
    ensures ValidComparador(Toggled(prev, id))
  {
    if id !in prev {
      if |prev| >= ComparadorCapacity {
        WithoutFirst(prev);
        NoDuplicatesSnoc(prev[1..], id);
      } else {
        NoDuplicatesSnoc(prev, id);
      }
    }
  }

  /** Toggling a present id removes exactly that id and keeps every other
      member, in its order. */
  lemma ToggleRemovesPresent(prev: seq<string>, id: string)
    requires NoDuplicates(prev) && id in prev
    ensures id !in Toggled(prev, id)
    ensures forall y :: y != id ==> (y in Toggled(prev, id) <==> y in prev)
    ensures IsSubsequence(Toggled(prev, id), prev)
    ensures |Toggled(prev, id)| == |prev| - 1
  {
  }

  /** Toggling an absent id below capacity appends it and keeps all members. */
  lemma ToggleAddsBelowCapacity(prev: seq<string>, id: string)
    requires id !in prev && |prev| < ComparadorCapacity
    ensures Toggled(prev, id) == prev + [id]
  {
  }

  /** Toggling an absent id at capacity evicts exactly the earliest-inserted
      member, appends the new id, and keeps the size at three. */
  lemma ToggleEvictsOldest(prev: seq<string>, id: string)
    requires ValidComparador(prev) && |prev| == ComparadorCapacity && id !in prev
    ensures Toggled(prev, id) == prev[1..] + [id]
    ensures |Toggled(prev, id)| == ComparadorCapacity
    ensures prev[0] !in Toggled(prev, id)
  {
    WithoutFirst(prev);
    assert prev[0] !in prev[1..];
  }

  /** Deleting a last element that occurs nowhere else gives back the prefix. */
  lemma {:induction false} WithoutLast(s: seq<string>, x: string)
    requires x !in s
    ensures Without(s + [x], x) == s
  {
    if s != [] {
      assert (s + [x])[1..] == s[1..] + [x];
      WithoutLast(s[1..], x);
    }
  }

  /** Toggling an absent id twice below capacity restores the exact selection. */
  lemma ToggleTwiceRestores(prev: seq<string>, id: string)
    requires id !in prev && |prev| < ComparadorCapacity
    ensures Toggled(Toggled(prev, id), id) == prev
  {
    WithoutLast(prev, id);
  }

  /** Toggling an absent id twice at capacity restores its absence, but the
      member it evicted stays lost: the two toggles leave only the two newest
      of the original members. */
  lemma ToggleTwiceAtCapacity(prev: seq<string>, id: string)
    requires ValidComparador(prev) && |prev| == ComparadorCapacity && id !in prev
    ensures id !in Toggled(Toggled(prev, id), id)
    ensures Toggled(Toggled(prev, id), id) == prev[1..]
    ensures prev[0] !in Toggled(Toggled(prev, id), id)
  {
    ToggleEvictsOldest(prev, id);
    WithoutLast(prev[1..], id);
  }

  /** Toggling a present id twice restores its membership and every other
      member; the id is then the newest member. */
  lemma ToggleTwiceRestoresMembership(prev: seq<string>, id: string)
    requires ValidComparador(prev) && id in prev
    ensures forall y :: y in Toggled(Toggled(prev, id), id) <==> y in prev
    ensures Toggled(Toggled(prev, id), id) == Without(prev, id) + [id]
  {
  }

  /** From empty, toggling x, y, z fills the comparator; a fourth id w evicts x. */
  lemma ComparadorScenario()
    ensures Toggled(Toggled(Toggled([], "x"), "y"), "z") == ["x", "y", "z"]
    ensures Toggled(["x", "y", "z"], "w") == ["y", "z", "w"]
  {
    ToggleAddsBelowCapacity([], "x");
    assert [] + ["x"] == ["x"];
    assert "y" !in ["x"];
    ToggleAddsBelowCapacity(["x"], "y");
    assert ["x"] + ["y"] == ["x", "y"];
    assert "z" !in ["x", "y"];
    ToggleAddsBelowCapacity(["x", "y"], "z");
    assert ["x", "y"] + ["z"] == ["x", "y", "z"];
    assert "w" !in ["x", "y", "z"];
    ToggleEvictsOldest(["x", "y", "z"], "w");
    assert ["x", "y", "z"][1..] == ["y", "z"];
  }

  /** The subscription set after a confirmed toggle: membership of `id` flips. */
  function Flipped(s: set<string>, id: string): (r: set<string>)
    ensures id in r <==> id !in s
    ensures forall y :: y != id ==> (y in r <==> y in s)
  {
    if id in s then s - {id} else s + {id}
  }

  /** Two confirmed toggles of one id restore the subscription set. */
  lemma FlipTwice(s: set<string>, id: string)
    ensures Flipped(Flipped(s, id), id) == s
  {
  }

  /** One row of the `convenio_suscripciones` listing. */
  datatype SubscriptionRow = SubscriptionRow(convenioId: string)

  /** The write `toggleSubscription` sends to the store. */
  datatype SubscriptionWrite = DeleteSubscription(convenioId: string) | InsertSubscription(convenioId: string)

  /** The `{ error }` part of the store's answer to that write. */
  datatype RemoteOutcome = Ok | Err(error: string)

  /** Result of `toggleSubscription`: it resolves, or it rethrows the store's error. */
  datatype Outcome = Pass | Fail(error: string)

  /** The listed ids, `new Set(data.map(s => s.convenio_id))`. */
  function IdsOf(rows: seq<SubscriptionRow>): (r: set<string>)
    ensures forall i :: 0 <= i < |rows| ==> rows[i].convenioId in r
    ensures forall id :: id in r ==> exists i :: 0 <= i < |rows| && rows[i].convenioId == id
  {
    set i | 0 <= i < |rows| :: rows[i].convenioId
  }

  /** The provider's state: the subscribed ids and the comparator selection, the
      latter in the insertion order a JavaScript `Set` iterates in. */
  class ConveniosState {
    var subscribed: set<string>
    var comparador: seq<string>

    ghost predicate Valid()
      reads this
    {
      ValidComparador(comparador)
    }

    /** Both slices start empty. */
    constructor ()
      ensures Valid()
      ensures subscribed == {} && comparador == []
    {
      subscribed := {};
      comparador := [];
    }

    method IsSubscribed(convenioId: string) returns (b: bool)
      ensures b <==> convenioId in subscribed
    {
      b := convenioId in subscribed;
    }

    method IsInComparador(convenioId: string) returns (b: bool)
      ensures b <==> convenioId in comparador
    {
      b := convenioId in comparador;
    }

    /** Copies the selection, deletes or evicts-and-adds on the copy, and
        installs the copy; the subscriptions are not touched. */
    method ToggleComparador(convenioId: string)
      requires Valid()
      modifies this`comparador
      ensures Valid()
      ensures comparador == Toggled(old(comparador), convenioId)
    {
      var newSet := comparador;
      if convenioId in newSet {
        newSet := Without(newSet, convenioId);
      } else {
        if |newSet| >= ComparadorCapacity {
          var firstItem := newSet[0];
          newSet := Without(newSet, firstItem);
        }
        newSet := newSet + [convenioId];
      }
      ToggleKeepsValid(comparador, convenioId);
      comparador := newSet;
    }

    /** Sends a delete when `convenioId` is subscribed and an insert otherwise;
        `remote` is the store's answer to that write. The local set changes only
        on success; an error is handed back to the caller and nothing changes. */
    method ToggleSubscription(convenioId: string, remote: RemoteOutcome)
      returns (write: SubscriptionWrite, result: Outcome)
      modifies this`subscribed
      ensures write == if convenioId in old(subscribed) then DeleteSubscription(convenioId)
                       else InsertSubscription(convenioId)
      ensures remote.Ok? ==> result == Pass && subscribed == Flipped(old(subscribed), convenioId)
      ensures remote.Err? ==> result == Fail(remote.error) && subscribed == old(subscribed)
    {
      var isCurrentlySubscribed := convenioId in subscribed;
      if isCurrentlySubscribed {
        write := DeleteSubscription(convenioId);
        if remote.Err? {
          result := Fail(remote.error);
          return;
        }
        subscribed := subscribed - {convenioId};
      } else {
        write := InsertSubscription(convenioId);
        if remote.Err? {
          result := Fail(remote.error);
          return;
        }
        subscribed := subscribed + {convenioId};
      }
      result := Pass;
    }

    /** Replaces the subscriptions with exactly the listed ids when the listing
        returns data; a null payload or a thrown call leaves them as they were. */
    method RefreshSubscriptions(listing: Response<seq<SubscriptionRow>>)
      modifies this`subscribed
      ensures listing.Answered? && listing.data.Some? ==> subscribed == IdsOf(listing.data.value)
      ensures !(listing.Answered? && listing.data.Some?) ==> subscribed == old(subscribed)
    {
      if listing.Answered? && listing.data.Some? {
        subscribed := IdsOf(listing.data.value);
      }
    }
  }
}
