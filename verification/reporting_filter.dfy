/** What the extractor keeps, at every level: nothing that is not configured, and everything that is. */
module ReportingFilter {
  import opened Bytes
  import opened Reporting
  import opened ReportingTheorems

  // ----- What the configuration says -----

  /** Entry i is the first one for this field number. */
  predicate FirstWith(cfg: seq<Config>, num: nat, i: int) {
    0 <= i < |cfg| && cfg[i].num == num && forall j :: 0 <= j < i ==> cfg[j].num != num
  }

  /** The field is a message whose own fields are selected: length-delimited, with a flag or with subfields. */
  predicate Nested(c: Config, f: Field) { f.tag % 8 == 2 && (c.isMessage || c.sub != []) }

  lemma {:induction false} ConfigIsFirst(cfg: seq<Config>, num: nat)
    ensures match ConfigFor(cfg, num)
      case None => forall i :: 0 <= i < |cfg| ==> cfg[i].num != num
      case Some(c) => exists i :: FirstWith(cfg, num, i) && cfg[i] == c
  {
    if cfg != [] && cfg[0].num != num {
      ConfigIsFirst(cfg[1..], num);
      assert forall i :: 0 < i < |cfg| ==> cfg[i] == cfg[1..][i - 1];
      if ConfigFor(cfg, num).Some? {
        var i :| FirstWith(cfg[1..], num, i) && cfg[1..][i] == ConfigFor(cfg, num).value;
        assert FirstWith(cfg, num, i + 1);
      }
    } else if cfg != [] {
      assert FirstWith(cfg, num, 0);
    }
  }

  lemma FirstIsOne(cfg: seq<Config>, num: nat, i: int, j: int)
    requires FirstWith(cfg, num, i) && FirstWith(cfg, num, j)
    ensures i == j
  {
  }

  // ----- Soundness -----

  /** Every field of the output is configured and stems from a field of the input with the same tag: it is that field,
      or a message of which again only what is configured was kept, and something was. */
  ghost predicate Sound(cfg: seq<Config>, d: Bytes, out: Bytes)
    decreases |out|, 0
  {
    forall g :: g in Scan(out).fields ==> Stems(cfg, Scan(d).fields, g)
  }

  ghost predicate Stems(cfg: seq<Config>, fs: seq<Field>, g: Field)
    decreases |g.content|, 1
  {
    exists i, f :: FirstWith(cfg, g.tag / 8, i) && f in fs && f.tag == g.tag &&
      if Nested(cfg[i], g) then g.content != [] && Sound(cfg[i].sub, f.content, g.content) else g == f
  }

  lemma {:induction false} KeptFrom(sort: Sorter, cfg: seq<Config>, fs: seq<Field>, bound: nat, g: Field)
    returns (f: Field)
    requires (forall f :: f in fs ==> |f.content| < bound) && g in Keep(sort, cfg, fs, bound)
    ensures f in fs && g in KeepOne(sort, cfg, f)
  {
    hide KeepOne;
    var n := |fs| - 1;
    if g in KeepOne(sort, cfg, fs[n]) {
      f := fs[n];
    } else {
      f := KeptFrom(sort, cfg, fs[..n], bound, g);
    }
  }

  lemma {:induction false} KeptStems(sort: Sorter, cfg: seq<Config>, fs: seq<Field>, f: Field, g: Field)
    requires IsSorter(sort) && SubBareLast(sort, cfg, f) && f in fs && g in KeepOne(sort, cfg, f)
    ensures Stems(cfg, fs, g)
    decreases |f.content|, 2
  {
    hide Extract, IsSorter, BareLast, Sound, PutUvarint;
    ConfigIsFirst(cfg, f.Num());
    var c := ConfigFor(cfg, f.Num()).value;
    var i :| FirstWith(cfg, f.Num(), i) && cfg[i] == c;
    if Descends(c, f) {
      OutputIsSound(sort, c.sub, f.content);
    }
  }

  lemma {:induction false} OutputIsSound(sort: Sorter, cfg: seq<Config>, d: Bytes)
    requires IsSorter(sort) && BareLast(sort, cfg, d)
    ensures Sound(cfg, d, Extract(sort, cfg, d))
    decreases |d|, 1
  {
    hide Keep, KeepOne, Stems, IsSorter, BareOnlyLast, Extract;
    OutputWellFormed(sort, cfg, d);
    if Scan(d).end.AtBadWire? {
      NothingScanned(cfg);
    } else {
      var kept := Keep(sort, cfg, Scan(d).fields, |d|);
      BareLastBelow(sort, cfg, d);
      BareLastHere(sort, cfg, d);
      SortedElements(sort, kept);
      forall g | g in Scan(Extract(sort, cfg, d)).fields ensures Stems(cfg, Scan(d).fields, g) {
        var f := KeptFrom(sort, cfg, Scan(d).fields, |d|, g);
        KeptStems(sort, cfg, Scan(d).fields, f, g);
      }
    }
  }

  lemma BareLastHere(sort: Sorter, cfg: seq<Config>, d: Bytes)
    requires BareLast(sort, cfg, d) && !Scan(d).end.AtBadWire?
    ensures BareOnlyLast(sort(Keep(sort, cfg, Scan(d).fields, |d|)))
  {
    hide Keep, Scan, BareOnlyLast;
  }

  /** No configured field is cut off, at any level. */
  ghost predicate Uncut(cfg: seq<Config>, d: Bytes)
    decreases |d|
  {
    forall f, i :: f in Scan(d).fields && FirstWith(cfg, f.tag / 8, i) ==>
      if Nested(cfg[i], f) then Uncut(cfg[i].sub, f.content) else !Bare(f)
  }

  /** Then nothing is sorted behind a cut-off field. */
  lemma {:induction false} UncutIsBareLast(sort: Sorter, cfg: seq<Config>, d: Bytes)
    requires IsSorter(sort) && Uncut(cfg, d)
    ensures BareLast(sort, cfg, d)
    decreases |d|
  {
    hide Keep, KeepOne, IsSorter, Scan, Bare, ConfigFor, Genuine;
    var fs := Scan(d).fields;
    var kept := Keep(sort, cfg, fs, |d|);
    SortedElements(sort, kept);
    ScanGenuine(d);
    forall g | g in kept ensures !Bare(g) {
      var f := KeptFrom(sort, cfg, fs, |d|, g);
      KeptUncut(sort, cfg, d, f, g);
    }
    forall f | f in fs && ConfigFor(cfg, f.Num()).Some? && Descends(ConfigFor(cfg, f.Num()).value, f)
      ensures BareLast(sort, ConfigFor(cfg, f.Num()).value.sub, f.content)
    {
      var i := EntryFor(cfg, f);
      UncutIsBareLast(sort, cfg[i].sub, f.content);
    }
  }

  lemma KeptUncut(sort: Sorter, cfg: seq<Config>, d: Bytes, f: Field, g: Field)
    requires IsSorter(sort) && Uncut(cfg, d) && f in Scan(d).fields && Genuine(f) && g in KeepOne(sort, cfg, f)
    ensures !Bare(g)
  {
    hide Scan, Bare, Extract, IsSorter, PutUvarint, ParseOne, Limit;
    var i := EntryFor(cfg, f);
    if Descends(cfg[i], f) {
      var sub := Extract(sort, cfg[i].sub, f.content);
      OutputWellFormed(sort, cfg[i].sub, f.content);
      RebuiltGenuine(f.tag, sub);
    }
  }

  // ----- Completeness -----

  /** Nothing of this message is kept: it has a wire type that makes the extractor give up, or none of its fields is
      configured but messages of which nothing is kept. */
  ghost predicate Nothing(cfg: seq<Config>, d: Bytes)
    decreases |d|
  {
    Scan(d).end.AtBadWire? ||
    forall f, i :: f in Scan(d).fields && FirstWith(cfg, f.tag / 8, i) ==>
      Nested(cfg[i], f) && Nothing(cfg[i].sub, f.content)
  }

  /** The field is kept. */
  ghost predicate Wanted(cfg: seq<Config>, f: Field) {
    exists i :: FirstWith(cfg, f.tag / 8, i) && (Nested(cfg[i], f) ==> !Nothing(cfg[i].sub, f.content))
  }

  ghost function CountWanted(cfg: seq<Config>, fs: seq<Field>): nat {
    if fs == [] then 0
    else CountWanted(cfg, fs[..|fs| - 1]) + if Wanted(cfg, fs[|fs| - 1]) then 1 else 0
  }

  /** Every configured field of the input is in the output: as often as in the input if it is no message to be
      selected from, and otherwise with what is kept of it, unless nothing is.  There is one field for each, in the
      order of their numbers. */
  ghost predicate Complete(cfg: seq<Config>, d: Bytes, out: Bytes)
    decreases |d|, 0
  {
    && (forall f :: f in Scan(d).fields ==> Represented(cfg, d, f, out))
    && |Scan(out).fields| == CountWanted(cfg, Scan(d).fields) && Sorted(Scan(out).fields)
  }

  ghost predicate Represented(cfg: seq<Config>, d: Bytes, f: Field, out: Bytes)
    decreases |f.content|, 2
  {
    forall i :: FirstWith(cfg, f.tag / 8, i) ==>
      if Nested(cfg[i], f) then Nothing(cfg[i].sub, f.content) || HasPart(cfg[i].sub, f, Scan(out).fields)
      else multiset(Scan(out).fields)[f] == multiset(Scan(d).fields)[f]
  }

  ghost predicate HasPart(cfg: seq<Config>, f: Field, gs: seq<Field>)
    decreases |f.content|, 1
  {
    exists g :: g in gs && g.tag == f.tag && Complete(cfg, f.content, g.content)
  }

  /** The one entry that the configuration has for a field. */
  lemma EntryFor(cfg: seq<Config>, f: Field) returns (i: int)
    requires ConfigFor(cfg, f.Num()).Some?
    ensures FirstWith(cfg, f.tag / 8, i) && cfg[i] == ConfigFor(cfg, f.Num()).value
    ensures forall j :: FirstWith(cfg, f.tag / 8, j) ==> j == i
  {
    ConfigIsFirst(cfg, f.Num());
    i :| FirstWith(cfg, f.Num(), i) && cfg[i] == ConfigFor(cfg, f.Num()).value;
  }

  lemma NoEntryFor(cfg: seq<Config>, f: Field)
    requires ConfigFor(cfg, f.Num()).None?
    ensures forall i :: !FirstWith(cfg, f.tag / 8, i)
  {
    ConfigIsFirst(cfg, f.Num());
  }

  /** A field is kept, as one field, exactly when it is wanted. */
  lemma {:induction false} KeptIfWanted(sort: Sorter, cfg: seq<Config>, f: Field)
    requires IsSorter(sort)
    ensures |KeepOne(sort, cfg, f)| == if Wanted(cfg, f) then 1 else 0
    decreases |f.content|, 2
  {
    hide Extract, IsSorter, Nothing, PutUvarint;
    if ConfigFor(cfg, f.Num()).None? {
      NoEntryFor(cfg, f);
    } else {
      var i := EntryFor(cfg, f);
      if Descends(cfg[i], f) {
        NothingIsKept(sort, cfg[i].sub, f.content);
      }
    }
  }

  lemma {:induction false} KeepCounts(sort: Sorter, cfg: seq<Config>, fs: seq<Field>, bound: nat)
    requires IsSorter(sort) && forall f :: f in fs ==> |f.content| < bound
    ensures |Keep(sort, cfg, fs, bound)| == CountWanted(cfg, fs)
    decreases bound, 0, |fs|
  {
    hide KeepOne, IsSorter, Wanted;
    if fs != [] {
      KeepCounts(sort, cfg, fs[..|fs| - 1], bound);
      KeptIfWanted(sort, cfg, fs[|fs| - 1]);
    }
  }

  /** The output is empty exactly when nothing of the message is to be kept. */
  lemma {:induction false} NothingIsKept(sort: Sorter, cfg: seq<Config>, d: Bytes)
    requires IsSorter(sort)
    ensures Extract(sort, cfg, d) == [] <==> Nothing(cfg, d)
    decreases |d|, 1
  {
    hide Keep, IsSorter, Wanted, Extract, Print, Genuine;
    OutputWellFormed(sort, cfg, d);
    if !Scan(d).end.AtBadWire? {
      var fs := Scan(d).fields;
      var kept := Keep(sort, cfg, fs, |d|);
      KeepCounts(sort, cfg, fs, |d|);
      NoneWanted(cfg, fs);
      ScanGenuine(d);
      KeepWell(sort, cfg, fs, |d|);
      SortedElements(sort, kept);
      ExtractIs(sort, cfg, d);
      assert |multiset(sort(kept))| == |sort(kept)| && |multiset(kept)| == |kept|;
      PrintsSomething(sort(kept));
      assert Nothing(cfg, d) <==> forall f :: f in fs ==> !Wanted(cfg, f) by {
        NothingIsUnwanted(cfg, d);
      }
    }
  }

  lemma PrintsSomething(fs: seq<Field>)
    requires forall f :: f in fs ==> Genuine(f)
    ensures Print(fs) == [] <==> fs == []
  {
    if fs != [] {
      assert Genuine(fs[0]);
    }
  }

  lemma NothingIsUnwanted(cfg: seq<Config>, d: Bytes)
    requires !Scan(d).end.AtBadWire?
    ensures Nothing(cfg, d) <==> forall f :: f in Scan(d).fields ==> !Wanted(cfg, f)
  {
    hide FirstWith, Nested;
  }

  lemma {:induction false} NoneWanted(cfg: seq<Config>, fs: seq<Field>)
    ensures CountWanted(cfg, fs) == 0 <==> forall f :: f in fs ==> !Wanted(cfg, f)
  {
    hide Wanted;
    if fs != [] {
      var n := |fs| - 1;
      NoneWanted(cfg, fs[..n]);
      assert fs == fs[..n] + [fs[n]];
      assert forall f :: f in fs <==> f in fs[..n] || f == fs[n];
    }
  }

  /** A field that is not selected from is kept as often as it occurs. */
  lemma {:induction false} LeavesAreKept(sort: Sorter, cfg: seq<Config>, fs: seq<Field>, bound: nat, f: Field, i: int)
    requires FirstWith(cfg, f.tag / 8, i) && !Nested(cfg[i], f) && forall g :: g in fs ==> |g.content| < bound
    ensures multiset(Keep(sort, cfg, fs, bound))[f] == multiset(fs)[f]
    decreases |fs|
  {
    hide KeepOne, FirstWith, Nested;
    if fs != [] {
      var n := |fs| - 1;
      LeavesAreKept(sort, cfg, fs[..n], bound, f, i);
      LeafOrNot(sort, cfg, fs[n], f, i);
      assert fs == fs[..n] + [fs[n]];
      var a, b := Keep(sort, cfg, fs[..n], bound), KeepOne(sort, cfg, fs[n]);
      assert multiset(a + b)[f] == multiset(a)[f] + multiset(b)[f];
      assert multiset(fs)[f] == multiset(fs[..n])[f] + multiset([fs[n]])[f];
    }
  }

  lemma LeafOrNot(sort: Sorter, cfg: seq<Config>, g: Field, f: Field, i: int)
    requires FirstWith(cfg, f.tag / 8, i) && !Nested(cfg[i], f)
    ensures multiset(KeepOne(sort, cfg, g))[f] == multiset([g])[f]
  {
    hide Extract, PutUvarint;
    if ConfigFor(cfg, g.Num()).Some? {
      var j := EntryFor(cfg, g);
      if g.tag == f.tag {
        FirstIsOne(cfg, f.tag / 8, i, j);
      }
    } else {
      NoEntryFor(cfg, g);
    }
  }

  /** A message that is selected from is represented by what is kept of it. */
  lemma {:induction false} PartIsKept(
    sort: Sorter, cfg: seq<Config>, fs: seq<Field>, bound: nat, f: Field, i: int) returns (g: Field)
    requires IsSorter(sort) && (forall h :: h in fs ==> |h.content| < bound) && f in fs && SubBareLast(sort, cfg, f)
    requires FirstWith(cfg, f.tag / 8, i) && Nested(cfg[i], f) && !Nothing(cfg[i].sub, f.content)
    ensures g in Keep(sort, cfg, fs, bound) && g.tag == f.tag && Complete(cfg[i].sub, f.content, g.content)
    decreases |f.content|, 2
  {
    hide Extract, IsSorter, Nothing, PutUvarint, Complete, BareLast, Keep;
    EntryExists(cfg, f, i);
    var sub := Extract(sort, cfg[i].sub, f.content);
    NothingIsKept(sort, cfg[i].sub, f.content);
    OutputIsComplete(sort, cfg[i].sub, f.content);
    g := Rebuild(f.tag, sub);
    KeptAmongAll(sort, cfg, fs, bound, f, g);
  }

  lemma EntryExists(cfg: seq<Config>, f: Field, i: int)
    requires FirstWith(cfg, f.tag / 8, i)
    ensures ConfigFor(cfg, f.Num()) == Some(cfg[i])
  {
    ConfigIsFirst(cfg, f.Num());
    if ConfigFor(cfg, f.Num()).Some? {
      var j := EntryFor(cfg, f);
    }
  }

  lemma {:induction false} KeptAmongAll(
    sort: Sorter, cfg: seq<Config>, fs: seq<Field>, bound: nat, f: Field, g: Field)
    requires (forall h :: h in fs ==> |h.content| < bound) && f in fs && g in KeepOne(sort, cfg, f)
    ensures g in Keep(sort, cfg, fs, bound)
    decreases |fs|
  {
    hide KeepOne;
    var n := |fs| - 1;
    if f != fs[n] {
      KeptAmongAll(sort, cfg, fs[..n], bound, f, g);
    }
  }

  lemma {:induction false} OutputIsComplete(sort: Sorter, cfg: seq<Config>, d: Bytes)
    requires IsSorter(sort) && BareLast(sort, cfg, d) && !Nothing(cfg, d)
    ensures Complete(cfg, d, Extract(sort, cfg, d))
    decreases |d|, 1
  {
    hide Keep, KeepOne, IsSorter, BareOnlyLast, Extract, Represented, Sorted;
    var fs, out := Scan(d).fields, Extract(sort, cfg, d);
    OutputWellFormed(sort, cfg, d);
    BareLastBelow(sort, cfg, d);
    BareLastHere(sort, cfg, d);
    var kept := Keep(sort, cfg, fs, |d|);
    SortedElements(sort, kept);
    KeepCounts(sort, cfg, fs, |d|);
    assert |multiset(sort(kept))| == |sort(kept)| && |multiset(kept)| == |kept|;
    SorterSorts(sort, kept);
    forall f | f in fs ensures Represented(cfg, d, f, out) {
      FieldIsRepresented(sort, cfg, d, f, kept);
    }
  }

  lemma SorterSorts(sort: Sorter, fs: seq<Field>)
    requires IsSorter(sort)
    ensures Sorted(sort(fs))
  {
  }

  lemma {:induction false} FieldIsRepresented(sort: Sorter, cfg: seq<Config>, d: Bytes, f: Field, kept: seq<Field>)
    requires IsSorter(sort) && f in Scan(d).fields && kept == Keep(sort, cfg, Scan(d).fields, |d|)
    requires SubBareLast(sort, cfg, f) && Scan(Extract(sort, cfg, d)).fields == sort(kept)
    requires multiset(sort(kept)) == multiset(kept)
    ensures Represented(cfg, d, f, Extract(sort, cfg, d))
    decreases |f.content|, 3
  {
    hide Keep, KeepOne, IsSorter, Extract, Nested, Nothing, Complete, SubBareLast, Scan;
    var out := sort(kept);
    forall i | FirstWith(cfg, f.tag / 8, i)
      ensures if Nested(cfg[i], f) then Nothing(cfg[i].sub, f.content) || HasPart(cfg[i].sub, f, out)
              else multiset(out)[f] == multiset(Scan(d).fields)[f]
    {
      if !Nested(cfg[i], f) {
        LeavesAreKept(sort, cfg, Scan(d).fields, |d|, f, i);
      } else if !Nothing(cfg[i].sub, f.content) {
        var g := PartIsKept(sort, cfg, Scan(d).fields, |d|, f, i);
        assert g in multiset(kept);
        assert g in out;
      }
    }
  }
}
