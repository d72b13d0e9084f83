/**
  The option lists of the filter drop-downs on the profile and bidder
  pages, and the `'All'` filter test they feed. An option list is every
  truthy value of one field across the rows, added to a JavaScript `Set`
  in row order and then sorted with `Array.prototype.sort()`.
*/
module OptionLists {
  import opened Wrappers
  import opened StringOrder

  /** The value a filter holds when it does not constrain its dimension. */
  const All: string := "All"

  /** The row survives `if (filter !== 'All' && field !== filter)`: the
      filter is `'All'` or equals the field exactly (a null field never
      equals a string). */
  predicate Passes(filter: string, field: Option<string>) {
    filter == All || field == Some(filter)
  }

  /** A field JavaScript treats as true: present and not the empty string. */
  predicate Truthy(v: Option<string>) {
    v.Some? && v.value != ""
  }

  /** `x` is the value of the field in some row (and so is truthy). */
  ghost predicate Present(fields: seq<Option<string>>, x: string) {
    x != "" && exists i :: 0 <= i < |fields| && fields[i] == Some(x)
  }

  /** `set.add(v)` on a `Set` kept as its elements in insertion order. */
  function Add(seen: seq<string>, v: string): seq<string> {
    if v in seen then seen else seen + [v]
  }

  /** Adding to a set with no repeated element keeps it so. */
  lemma AddDistinct(seen: seq<string>, v: string)
    requires Distinct(seen)
    ensures Distinct(Add(seen, v))
  {
  }

  /** Adding puts in exactly `v`. */
  lemma AddMembers(seen: seq<string>, v: string)
    ensures forall x :: x in Add(seen, v) <==> x in seen || x == v
  {
  }

  /** The `Set` built by `rows.forEach((r) => r.f && s.add(r.f))`, where
      `fields` holds `r.f` for each row in order. */
  function Collect(fields: seq<Option<string>>): seq<string>
    decreases |fields|
  {
    if fields == [] then []
    else
      var seen := Collect(fields[..|fields| - 1]);
      var v := fields[|fields| - 1];
      if Truthy(v) then Add(seen, v.value) else seen
  }

  lemma {:induction false} CollectDistinct(fields: seq<Option<string>>)
    ensures Distinct(Collect(fields))
    decreases |fields|
  {
    if fields != [] {
      var v := fields[|fields| - 1];
      CollectDistinct(fields[..|fields| - 1]);
      if Truthy(v) {
        AddDistinct(Collect(fields[..|fields| - 1]), v.value);
      }
    }
  }

  /** The set holds exactly the truthy values of the field. */
  lemma {:induction false} CollectMembers(fields: seq<Option<string>>)
    ensures forall x :: x in Collect(fields) <==> Present(fields, x)
    decreases |fields|
  {
    if fields != [] {
      var init := fields[..|fields| - 1];
      var v := fields[|fields| - 1];
      CollectMembers(init);
      forall x ensures x in Collect(fields) <==> Present(fields, x) {
        if Present(init, x) {
          var i :| 0 <= i < |init| && init[i] == Some(x);
          assert fields[i] == Some(x);
        }
        if Present(fields, x) && !(Truthy(v) && x == v.value) {
          var i :| 0 <= i < |fields| && fields[i] == Some(x);
          assert i < |init| && init[i] == Some(x);
        }
        if Truthy(v) {
          AddMembers(Collect(init), v.value);
        }
      }
    }
  }

  /** `Array.from(set).sort()`. */
  function OptionList(fields: seq<Option<string>>): seq<string> {
    Sort(Collect(fields))
  }

  /** An option list is strictly ascending (so holds no value twice) and
      holds exactly the truthy values of the field: never null, never the
      empty string, and values are not trimmed or otherwise altered. */
  lemma OptionListSpec(fields: seq<Option<string>>)
    ensures StrictlySorted(OptionList(fields))
    ensures forall x :: x in OptionList(fields) <==> Present(fields, x)
  {
    CollectDistinct(fields);
    CollectMembers(fields);
    SortDistinct(Collect(fields));
  }

  /** The empty string is never offered. */
  lemma OptionListNoEmpty(fields: seq<Option<string>>)
    ensures "" !in OptionList(fields)
  {
    OptionListSpec(fields);
  }

  /** The list depends only on which values occur: not on the order of the
      rows, on repetitions, or on anything else the rows hold. */
  lemma OptionListByValues(f: seq<Option<string>>, g: seq<Option<string>>)
    requires forall x :: Present(f, x) <==> Present(g, x)
    ensures OptionList(f) == OptionList(g)
  {
    OptionListSpec(f);
    OptionListSpec(g);
    StrictlySortedUnique(OptionList(f), OptionList(g));
  }

  /** The `forEach` over the rows adding each truthy field to the `Set`,
      then `Array.from(set).sort()`. */
  method CollectOptions(fields: seq<Option<string>>) returns (opts: seq<string>)
    ensures opts == OptionList(fields)
  {
    var seen: seq<string> := [];
    for i := 0 to |fields|
      invariant seen == Collect(fields[..i])
    {
      assert fields[..i + 1][..i] == fields[..i];
      var v := fields[i];
      if v.Some? && v.value != "" {
        if v.value !in seen {
          seen := seen + [v.value];
        }
      }
    }
    assert fields[..|fields|] == fields;
    opts := Sort(seen);
  }
}
