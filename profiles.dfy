/**
  The profile list page: the rows flattened from the joined query, the
  four option lists, the `filtered` rows and the label shown for a row.
*/
module Profiles {
  import opened Wrappers
  import opened Text
  import opened StringOrder
  import opened OptionLists

  /** A joined lookup record (`environments`, `geos`, `devices`,
      `page_types`) as the query returns it; its `code` may be missing. */
  datatype Joined = Joined(code: Option<string>)

  /** A row of `config_profiles` as the query returns it, each lookup
      table joined as a record that may be missing. */
  datatype RawProfile = RawProfile(
    id: int,
    name: Option<string>,
    environment_id: Option<int>,
    geo_id: Option<int>,
    device_id: Option<int>,
    page_type_id: Option<int>,
    environments: Option<Joined>,
    geos: Option<Joined>,
    devices: Option<Joined>,
    page_types: Option<Joined>)

  /** `ProfileRow`: the joined codes flattened into plain fields. */
  datatype ProfileRow = ProfileRow(
    id: int,
    name: Option<string>,
    environment_id: Option<int>,
    geo_id: Option<int>,
    device_id: Option<int>,
    page_type_id: Option<int>,
    environment: Option<string>,
    geo: Option<string>,
    device: Option<string>,
    page_type: Option<string>)

  // ---------------------------------------------------------------------
  // Flattening

  /** `j?.code ?? null`. */
  function CodeOf(j: Option<Joined>): Option<string> {
    if j.Some? then j.value.code else None
  }

  /** The code of a joined record is null exactly when the record or its
      code is missing, and otherwise is that code. */
  lemma CodeOfSpec(j: Option<Joined>)
    ensures CodeOf(j).None? <==> j.None? || j.value.code.None?
    ensures CodeOf(j).Some? ==> CodeOf(j) == j.value.code
  {
  }

  /** The object literal built for one row by `data?.map(...)`. */
  function Flatten(r: RawProfile): ProfileRow {
    ProfileRow(
      r.id, r.name, r.environment_id, r.geo_id, r.device_id, r.page_type_id,
      CodeOf(r.environments), CodeOf(r.geos), CodeOf(r.devices), CodeOf(r.page_types))
  }

  /** A flattened row with every lookup joined to a record holding its code. */
  function Unflatten(p: ProfileRow): RawProfile {
    RawProfile(
      p.id, p.name, p.environment_id, p.geo_id, p.device_id, p.page_type_id,
      Some(Joined(p.environment)), Some(Joined(p.geo)), Some(Joined(p.device)), Some(Joined(p.page_type)))
  }

  /** Flattening loses nothing a row shows: every flattened row comes from
      the raw row that joins its codes back. */
  lemma FlattenUnflatten(p: ProfileRow)
    ensures Flatten(Unflatten(p)) == p
  {
  }

  /** Flattening copies the identifiers and the name, and two raw rows
      flatten alike exactly when they agree on those and on their codes. */
  lemma FlattenSame(a: RawProfile, b: RawProfile)
    ensures Flatten(a) == Flatten(b) <==>
      && a.id == b.id && a.name == b.name
      && a.environment_id == b.environment_id && a.geo_id == b.geo_id
      && a.device_id == b.device_id && a.page_type_id == b.page_type_id
      && CodeOf(a.environments) == CodeOf(b.environments) && CodeOf(a.geos) == CodeOf(b.geos)
      && CodeOf(a.devices) == CodeOf(b.devices) && CodeOf(a.page_types) == CodeOf(b.page_types)
  {
  }

  /** `data?.map(...) ?? []`: one flattened row per returned row, in order,
      and no rows when the query returned no data. */
  function FlattenRows(data: Option<seq<RawProfile>>): (rows: seq<ProfileRow>)
    ensures data.None? ==> rows == []
    ensures data.Some? ==> |rows| == |data.value|
    ensures data.Some? ==> forall i :: 0 <= i < |rows| ==> rows[i] == Flatten(data.value[i])
  {
    if data.None? then [] else seq(|data.value|, i requires 0 <= i < |data.value| => Flatten(data.value[i]))
  }

  // ---------------------------------------------------------------------
  // Option lists

  /** The four filter dimensions. */
  datatype Dimension = Environment | Geo | Device | PageType

  function Field(r: ProfileRow, d: Dimension): Option<string> {
    match d
    case Environment => r.environment
    case Geo => r.geo
    case Device => r.device
    case PageType => r.page_type
  }

  /** The field of every row, in row order. */
  function Fields(rows: seq<ProfileRow>, d: Dimension): (fs: seq<Option<string>>)
    ensures |fs| == |rows|
  {
    seq(|rows|, i requires 0 <= i < |rows| => Field(rows[i], d))
  }

  /** `envOptions`, `geoOptions`, `deviceOptions` and `pageTypeOptions`:
      computed from the rows alone, whatever the filters hold. */
  method Options(rows: seq<ProfileRow>, d: Dimension) returns (opts: seq<string>)
    ensures opts == OptionList(Fields(rows, d))
  {
    opts := CollectOptions(Fields(rows, d));
  }

  /** An option list is strictly ascending and offers a value exactly when
      some row holds that non-empty value, untrimmed, in the dimension. */
  lemma OptionsSpec(rows: seq<ProfileRow>, d: Dimension)
    ensures StrictlySorted(OptionList(Fields(rows, d)))
    ensures forall x :: x in OptionList(Fields(rows, d)) <==>
      x != "" && exists i :: 0 <= i < |rows| && Field(rows[i], d) == Some(x)
  {
    var fs := Fields(rows, d);
    OptionListSpec(fs);
    forall x ensures Present(fs, x) <==> x != "" && exists i :: 0 <= i < |rows| && Field(rows[i], d) == Some(x) {
      if x != "" && exists i :: 0 <= i < |rows| && Field(rows[i], d) == Some(x) {
        var i :| 0 <= i < |rows| && Field(rows[i], d) == Some(x);
        assert fs[i] == Some(x);
      }
    }
  }

  // ---------------------------------------------------------------------
  // Filtering

  /** The four filter selections; each starts at `'All'`. */
  datatype Filters = Filters(env: string, geo: string, device: string, pageType: string)

  const Initial: Filters := Filters(All, All, All, All)

  /** The predicate passed to `rows.filter`. */
  predicate Keep(f: Filters, r: ProfileRow) {
    && Passes(f.env, r.environment)
    && Passes(f.geo, r.geo)
    && Passes(f.device, r.device)
    && Passes(f.pageType, r.page_type)
  }

  /** `rows.filter(...)`. */
  function Filtered(rows: seq<ProfileRow>, f: Filters): seq<ProfileRow>
    decreases |rows|
  {
    if rows == [] then []
    else if Keep(f, rows[0]) then [rows[0]] + Filtered(rows[1..], f)
    else Filtered(rows[1..], f)
  }

  /** `a` is `b` with some elements left out, the rest in their order. */
  ghost predicate Subsequence<T>(a: seq<T>, b: seq<T>)
    decreases |b|
  {
    a == [] || (b != [] && ((a[0] == b[0] && Subsequence(a[1..], b[1..])) || Subsequence(a, b[1..])))
  }

  /** The filtered rows keep their order: they are a subsequence of the rows. */
  lemma {:induction false} FilteredSubsequence(rows: seq<ProfileRow>, f: Filters)
    ensures Subsequence(Filtered(rows, f), rows)
    decreases |rows|
  {
    if rows != [] {
      FilteredSubsequence(rows[1..], f);
      if Keep(f, rows[0]) {
        assert ([rows[0]] + Filtered(rows[1..], f))[1..] == Filtered(rows[1..], f);
      }
    }
  }

  /** Each row is kept as often as it occurs when it passes all four
      filters, and dropped otherwise. */
  lemma {:induction false} FilteredCount(rows: seq<ProfileRow>, f: Filters, r: ProfileRow)
    ensures multiset(Filtered(rows, f))[r] == if Keep(f, r) then multiset(rows)[r] else 0
    decreases |rows|
  {
    if rows != [] {
      FilteredCount(rows[1..], f, r);
      assert rows == [rows[0]] + rows[1..];
    }
  }

  /** A row is shown exactly when it is one of the rows and, in each
      dimension, the filter is `'All'` or equals the row's field; so a row
      with a null field is hidden once that dimension is filtered. */
  lemma FilteredMembers(rows: seq<ProfileRow>, f: Filters, r: ProfileRow)
    ensures r in Filtered(rows, f) <==> r in rows && Keep(f, r)
  {
    FilteredCount(rows, f, r);
    assert r in Filtered(rows, f) <==> r in multiset(Filtered(rows, f));
    assert r in rows <==> r in multiset(rows);
  }

  /** With every filter at its initial `'All'`, all rows are shown. */
  lemma {:induction false} FilteredInitial(rows: seq<ProfileRow>)
    ensures Filtered(rows, Initial) == rows
    decreases |rows|
  {
    if rows != [] {
      FilteredInitial(rows[1..]);
      assert [rows[0]] + rows[1..] == rows;
    }
  }

  // ---------------------------------------------------------------------
  // Display label

  /** A field as a template literal shows it: null becomes `null`. */
  function Show(v: Option<string>): string {
    if v.Some? then v.value else "null"
  }

  /** `p.name || `${p.environment} | ${p.geo} | ${p.device} | ${p.page_type}``. */
  function Label(p: ProfileRow): (shown: string)
    ensures Truthy(p.name) ==> shown == p.name.value
    ensures shown != []
  {
    if Truthy(p.name) then p.name.value
    else Show(p.environment) + " | " + Show(p.geo) + " | " + Show(p.device) + " | " + Show(p.page_type)
  }

  /** The fields a nameless profile's label shows, in order. */
  function Shown(p: ProfileRow): seq<string> {
    [Show(p.environment), Show(p.geo), Show(p.device), Show(p.page_type)]
  }

  /** A profile with no name (null or empty) is labelled by its four
      fields joined with ` | `, each null field shown as `null`. */
  lemma LabelFallback(p: ProfileRow)
    requires !Truthy(p.name)
    ensures Label(p) == Join(Shown(p), " | ")
  {
    JoinFour(Show(p.environment), Show(p.geo), Show(p.device), Show(p.page_type));
  }

  lemma JoinFour(a: string, b: string, c: string, d: string)
    ensures Join([a, b, c, d], " | ") == a + " | " + b + " | " + c + " | " + d
  {
    var s := [a, b, c, d];
    assert s[1..][1..][1..] == [d];
    assert s[1..][1..] == [c, d];
    assert s[1..] == [b, c, d];
    assert Join([c, d], " | ") == c + " | " + d;
    assert Join([b, c, d], " | ") == b + " | " + (c + " | " + d);
  }

  /** In a nameless profile's label each null field is shown as `null` and
      each present field as its value; a null environment starts the label
      with `null | ` and a null page type ends it with ` | null`. */
  lemma LabelShowsNull(p: ProfileRow)
    requires !Truthy(p.name)
    ensures Label(p) == Join(Shown(p), " | ")
    ensures p.environment.None? ==> Shown(p)[0] == "null"
    ensures p.geo.None? ==> Shown(p)[1] == "null"
    ensures p.device.None? ==> Shown(p)[2] == "null"
    ensures p.page_type.None? ==> Shown(p)[3] == "null"
    ensures p.environment.Some? ==> Shown(p)[0] == p.environment.value
    ensures p.geo.Some? ==> Shown(p)[1] == p.geo.value
    ensures p.device.Some? ==> Shown(p)[2] == p.device.value
    ensures p.page_type.Some? ==> Shown(p)[3] == p.page_type.value
    ensures p.environment.None? ==> |Label(p)| >= 7 && Label(p)[..7] == "null | "
    ensures p.page_type.None? ==> |Label(p)| >= 7 && Label(p)[|Label(p)| - 7..] == " | null"
  {
    LabelFallback(p);
  }
}
