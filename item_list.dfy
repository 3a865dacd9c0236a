/** The list of drugs and supplements the user has entered: the value the
    `supplements` state of the App component holds, and the two updates the
    component applies to it (add the trimmed input, remove an item). */
module ItemList {
  import opened JsString

  /** The list the component starts with: aspirin, omega-3, vitamin E. */
  const Seed: seq<string> := ["아스피린", "오메가-3", "비타민 E"]

  /** No item occurs twice. */
  predicate NoDuplicates(items: seq<string>) {
    forall i, j :: 0 <= i < j < |items| ==> items[i] != items[j]
  }

  /** The invariant the component keeps: no duplicates, and every item is a
      non-empty string without whitespace at either end. */
  predicate WellFormed(items: seq<string>) {
    && NoDuplicates(items)
    && forall x :: x in items ==> x != "" && IsTrimmed(x)
  }

  /** Whether submitting `input` adds an item: its trimmed form is non-empty
      and not yet in the list. */
  predicate Accepts(items: seq<string>, input: string) {
    Trim(input) != "" && Trim(input) !in items
  }

  /** The list after submitting `input`: it keeps every earlier item in
      place, grows by at most one, and afterwards holds any non-blank input
      in trimmed form. */
  function Add(items: seq<string>, input: string): (r: seq<string>)
    ensures items <= r && |r| <= |items| + 1
    ensures Trim(input) != "" ==> Trim(input) in r
  {
    if Accepts(items, input) then items + [Trim(input)] else items
  }

  /** The list after removing `item`: every element equal to it is filtered out. */
  function Remove(items: seq<string>, item: string): (r: seq<string>)
    ensures |r| <= |items|
    ensures forall x :: x in r <==> x in items && x != item
    decreases |items|
  {
    if items == [] then []
    else if items[0] == item then Remove(items[1..], item)
    else [items[0]] + Remove(items[1..], item)
  }

  /** The seed list satisfies the invariant. */
  lemma SeedWellFormed()
    ensures WellFormed(Seed)
  {
    assert Seed[0][0] == '아' && Seed[0][3] == '린';
    assert Seed[1][0] == '오' && Seed[1][4] == '3';
    assert Seed[2][0] == '비' && Seed[2][4] == 'E';
  }

  /** Submitting input that trims to nothing, or to an item already present,
      leaves the list as it is, and only then. */
  lemma AddUnchangedIffRejected(items: seq<string>, input: string)
    ensures Add(items, input) == items <==> !Accepts(items, input)
  {
    if Accepts(items, input) {
      assert |Add(items, input)| == |items| + 1;
    }
  }

  /** An accepted input is appended as its trimmed form at the end; every
      earlier item stays where it was, and the length grows by one. */
  lemma AddAppends(items: seq<string>, input: string)
    requires Accepts(items, input)
    ensures |Add(items, input)| == |items| + 1
    ensures Add(items, input)[..|items|] == items
    ensures Add(items, input)[|items|] == Trim(input)
  {
  }

  /** Adding keeps the list free of duplicates, empty and untrimmed items. */
  lemma AddPreservesWellFormed(items: seq<string>, input: string)
    requires WellFormed(items)
    ensures WellFormed(Add(items, input))
  {
    if Accepts(items, input) {
      var t := Trim(input);
      assert t != "" && IsTrimmed(t);
      AppendKeepsNoDuplicates(items, t);
      forall x | x in items + [t]
        ensures x != "" && IsTrimmed(x)
      {
        if x != t {
          assert x in items;
        }
      }
    }
  }

  /** Appending an item not yet present keeps a list free of duplicates. */
  lemma AppendKeepsNoDuplicates(items: seq<string>, t: string)
    requires NoDuplicates(items) && t !in items
    ensures NoDuplicates(items + [t])
  {
    var r := items + [t];
    forall i, j | 0 <= i < j < |r|
      ensures r[i] != r[j]
    {
      if j == |items| {
        assert r[i] == items[i];
      }
    }
  }

  /** Submitting the same input twice in a row adds it once. */
  lemma AddIdempotent(items: seq<string>, input: string)
    ensures Add(Add(items, input), input) == Add(items, input)
  {
    if Accepts(items, input) {
      assert Trim(input) in Add(items, input);
    }
  }

  /** Removing an absent item changes nothing. */
  lemma {:induction false} RemoveAbsent(items: seq<string>, item: string)
    requires item !in items
    ensures Remove(items, item) == items
    decreases |items|
  {
    if items != [] {
      RemoveAbsent(items[1..], item);
      assert [items[0]] + items[1..] == items;
    }
  }

  /** Removing distributes over concatenation: the items that stay keep
      their relative order. */
  lemma {:induction false} RemoveConcat(a: seq<string>, b: seq<string>, item: string)
    ensures Remove(a + b, item) == Remove(a, item) + Remove(b, item)
    decreases |a|
  {
    if a == [] {
      assert a + b == b;
    } else {
      assert (a + b)[1..] == a[1..] + b;
      RemoveConcat(a[1..], b, item);
    }
  }

  /** In a list without duplicates, removing the item at position `i` closes
      the gap and leaves everything else in order. */
  lemma RemoveAt(items: seq<string>, i: nat)
    requires NoDuplicates(items) && i < |items|
    ensures Remove(items, items[i]) == items[..i] + items[i + 1..]
  {
    var x := items[i];
    assert items == items[..i] + [x] + items[i + 1..];
    assert x !in items[..i];
    assert x !in items[i + 1..];
    RemoveConcat(items[..i] + [x], items[i + 1..], x);
    RemoveConcat(items[..i], [x], x);
    RemoveAbsent(items[..i], x);
    RemoveAbsent(items[i + 1..], x);
  }

  /** Removing keeps a list free of duplicates. */
  lemma {:induction false} RemoveKeepsNoDuplicates(items: seq<string>, item: string)
    requires NoDuplicates(items)
    ensures NoDuplicates(Remove(items, item))
    decreases |items|
  {
    if items != [] {
      var tail := items[1..];
      assert NoDuplicates(tail) by {
        forall i, j | 0 <= i < j < |tail| ensures tail[i] != tail[j] {
          assert tail[i] == items[i + 1] && tail[j] == items[j + 1];
        }
      }
      RemoveKeepsNoDuplicates(tail, item);
      if items[0] != item {
        var rest := Remove(tail, item);
        assert items[0] !in tail by {
          forall k | 0 <= k < |tail| ensures tail[k] != items[0] {
            assert tail[k] == items[k + 1];
          }
        }
        var r := [items[0]] + rest;
        forall i, j | 0 <= i < j < |r| ensures r[i] != r[j] {
          if i == 0 {
            assert r[j] == rest[j - 1] && r[j] in rest;
          } else {
            assert r[i] == rest[i - 1] && r[j] == rest[j - 1];
          }
        }
      }
    }
  }

  /** Removing keeps the invariant. */
  lemma RemovePreservesWellFormed(items: seq<string>, item: string)
    requires WellFormed(items)
    ensures WellFormed(Remove(items, item))
  {
    RemoveKeepsNoDuplicates(items, item);
  }

  /** Removing the item that an accepted input just added restores the list. */
  lemma RemoveUndoesAdd(items: seq<string>, input: string)
    requires Accepts(items, input)
    ensures Remove(Add(items, input), Trim(input)) == items
  {
    var t := Trim(input);
    RemoveConcat(items, [t], t);
    RemoveAbsent(items, t);
  }
}
