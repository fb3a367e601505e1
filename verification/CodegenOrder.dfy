/**
  The verdict on a batch and its root types depend neither on the order in which the files to
  generate are listed nor on the order of their descriptors.
 */
module CodegenOrder {
  import opened Options
  import opened Sequences
  import opened CodegenModel
  import CodegenBatch
  import CodegenNames

  lemma KeysOfConcat(a: seq<Item>, b: seq<Item>)
    ensures Keys(a + b) == Keys(a) + Keys(b)
  {
  }

  lemma ItemsWithout(cfg: Config, b: seq<ProtoFile>, i: nat)
    requires i < |b|
    ensures multiset(Keys(BatchItems(cfg, b))) ==
            multiset(Keys(BatchItems(cfg, b[..i] + b[i + 1..]))) +
            multiset(Keys(FileItems(cfg, b[i].package, b[i].services)))
  {
    hide FileItems, Keys;
    var items := FileItems(cfg, b[i].package, b[i].services);
    CodegenNames.ItemsOfConcat(cfg, b[..i], b[i + 1..]);
    KeysOfConcat(BatchItems(cfg, b[..i]), BatchItems(cfg, b[i + 1..]));
    assert b == b[..i + 1] + b[i + 1..] && b[..i + 1][..i] == b[..i];
    CodegenNames.ItemsOfConcat(cfg, b[..i + 1], b[i + 1..]);
    KeysOfConcat(BatchItems(cfg, b[..i]) + items, BatchItems(cfg, b[i + 1..]));
    KeysOfConcat(BatchItems(cfg, b[..i]), items);
  }

  lemma {:induction false} ItemsRearranged(cfg: Config, a: seq<ProtoFile>, b: seq<ProtoFile>)
    requires multiset(a) == multiset(b)
    ensures multiset(Keys(BatchItems(cfg, a))) == multiset(Keys(BatchItems(cfg, b)))
    decreases |a|
  {
    hide FileItems, Keys;
    if a == [] {
      assert |multiset(b)| == 0;
      assert b == [];
    } else {
      var n := |a| - 1;
      assert a[n] in multiset(b);
      var i :| 0 <= i < |b| && b[i] == a[n];
      RemoveOne(a, b, i);
      ItemsRearranged(cfg, a[..n], b[..i] + b[i + 1..]);
      ItemsWithout(cfg, b, i);
      KeysOfConcat(BatchItems(cfg, a[..n]), FileItems(cfg, a[n].package, a[n].services));
    }
  }

  lemma SelectedWithout(files: seq<ProtoFile>, b: seq<string>, i: nat)
    requires i < |b|
    ensures multiset(Selected(files, b)) ==
            multiset(Selected(files, b[..i] + b[i + 1..])) + multiset(Selected(files, [b[i]]))
  {
    hide Selected;
    CodegenNames.SelectedRule(files, b[..i], b[i + 1..], "");
    assert b == b[..i] + ([b[i]] + b[i + 1..]);
    CodegenNames.SelectedRule(files, b[..i], [b[i]] + b[i + 1..], "");
    CodegenNames.SelectedRule(files, [b[i]], b[i + 1..], "");
  }

  lemma {:induction false} SelectedRearranged(files: seq<ProtoFile>, a: seq<string>, b: seq<string>)
    requires multiset(a) == multiset(b)
    ensures multiset(Selected(files, a)) == multiset(Selected(files, b))
    decreases |a|
  {
    hide Selected;
    if a == [] {
      assert |multiset(b)| == 0;
      assert b == [];
    } else {
      var n := |a| - 1;
      assert a[n] in multiset(b);
      var i :| 0 <= i < |b| && b[i] == a[n];
      RemoveOne(a, b, i);
      SelectedRearranged(files, a[..n], b[..i] + b[i + 1..]);
      SelectedWithout(files, b, i);
      assert a == a[..n] + [a[n]];
      CodegenNames.SelectedRule(files, a[..n], [a[n]], "");
    }
  }

  lemma {:induction false} DeclsByMembership(files: seq<ProtoFile>, a: seq<string>, b: seq<string>)
    requires forall n :: n in a <==> n in b
    ensures Decls(files, a) == Decls(files, b)
  {
    hide FileDecls;
    if files != [] {
      DeclsByMembership(files[..|files| - 1], a, b);
    }
  }

  /** Listing the files to generate in another order changes neither verdict nor root types. */
  lemma VerdictOrderIndependent(cfg: Config, files: seq<ProtoFile>, a: seq<string>, b: seq<string>)
    requires multiset(a) == multiset(b)
    ensures RootTypes(cfg, Decls(files, a)) == RootTypes(cfg, Decls(files, b))
    ensures Acceptable(cfg, Selected(files, a), RootTypes(cfg, Decls(files, a))) <==>
            Acceptable(cfg, Selected(files, b), RootTypes(cfg, Decls(files, b)))
  {
    hide Selected, RootTypes, Decls, BatchItems, FileAcceptable, Keys;
    SameMembers(a, b);
    DeclsByMembership(files, a, b);
    SelectedRearranged(files, a, b);
    SameMembers(Selected(files, a), Selected(files, b));
    ItemsRearranged(cfg, Selected(files, a), Selected(files, b));
    NoDuplicatesRearranged(Keys(BatchItems(cfg, Selected(files, a))), Keys(BatchItems(cfg, Selected(files, b))));
  }

  // ----- Descriptors in another order --------------------------------------------------------

  lemma {:induction false} DeclsOfConcat(a: seq<ProtoFile>, b: seq<ProtoFile>, names: seq<string>)
    ensures Decls(a + b, names) == Decls(a, names) + Decls(b, names)
    decreases |b|
  {
    hide FileDecls;
    if b == [] {
      assert a + b == a;
    } else {
      var n := |b| - 1;
      assert a + b == (a + b[..n]) + [b[n]] && b == b[..n] + [b[n]];
      DeclsOfConcat(a, b[..n], names);
      hide Decls;
      var more := if b[n].name.Some? && b[n].name.value in names then FileDecls(b[n]) else [];
      CodegenBatch.DeclsOneMore(a + b[..n], b[n], names);
      CodegenBatch.DeclsOneMore(b[..n], b[n], names);
      Associate(Decls(a, names), Decls(b[..n], names), more);
    }
  }

  lemma DeclsWithout(b: seq<ProtoFile>, i: nat, names: seq<string>)
    requires i < |b|
    ensures multiset(Decls(b, names)) == multiset(Decls(b[..i] + b[i + 1..], names)) + multiset(Decls([b[i]], names))
  {
    hide Decls;
    assert b == b[..i] + ([b[i]] + b[i + 1..]);
    DeclsOfConcat(b[..i], [b[i]] + b[i + 1..], names);
    DeclsOfConcat([b[i]], b[i + 1..], names);
    DeclsOfConcat(b[..i], b[i + 1..], names);
  }

  /** Rearranging the descriptors rearranges the declarations. */
  lemma {:induction false} DeclsRearranged(a: seq<ProtoFile>, b: seq<ProtoFile>, names: seq<string>)
    requires multiset(a) == multiset(b)
    ensures multiset(Decls(a, names)) == multiset(Decls(b, names))
    decreases |a|
  {
    hide Decls;
    if a == [] {
      assert |multiset(b)| == 0;
      assert b == [];
    } else {
      var n := |a| - 1;
      assert a[n] in multiset(b);
      var i :| 0 <= i < |b| && b[i] == a[n];
      RemoveOne(a, b, i);
      DeclsRearranged(a[..n], b[..i] + b[i + 1..], names);
      DeclsWithout(b, i, names);
      assert a == a[..n] + [a[n]];
      DeclsOfConcat(a[..n], [a[n]], names);
    }
  }

  /** A file name belongs to one descriptor, as in every descriptor set that protoc writes. */
  predicate NamesApart(files: seq<ProtoFile>) {
    forall i, j :: 0 <= i < |files| && 0 <= j < |files| && files[i].name.Some? && files[i].name == files[j].name
                   ==> files[i] == files[j]
  }

  lemma {:induction false} FindByMembership(files: seq<ProtoFile>, name: string)
    ensures Find(files, name).Some? ==> Find(files, name).value in files && Find(files, name).value.name == Some(name)
    ensures (exists f :: f in files && f.name == Some(name)) <==> Find(files, name).Some?
  {
    if files != [] {
      FindByMembership(files[1..], name);
      assert files == [files[0]] + files[1..];
    }
  }

  lemma FindRearranged(a: seq<ProtoFile>, b: seq<ProtoFile>, name: string)
    requires NamesApart(a) && forall f :: f in a <==> f in b
    ensures Find(a, name) == Find(b, name)
  {
    hide Find;
    FindByMembership(a, name);
    FindByMembership(b, name);
  }

  lemma {:induction false} SelectedFrom(a: seq<ProtoFile>, b: seq<ProtoFile>, names: seq<string>)
    requires NamesApart(a) && forall f :: f in a <==> f in b
    ensures Selected(a, names) == Selected(b, names)
    decreases |names|
  {
    hide Find, NamesApart;
    if names != [] {
      FindRearranged(a, b, names[0]);
      SelectedFrom(a, b, names[1..]);
    }
  }

  /** The root types do not depend on the order of the descriptors. */
  lemma RootTypesFileOrder(cfg: Config, a: seq<ProtoFile>, b: seq<ProtoFile>, names: seq<string>)
    requires multiset(a) == multiset(b)
    ensures RootTypes(cfg, Decls(a, names)) == RootTypes(cfg, Decls(b, names))
  {
    hide Decls, RootTypes;
    DeclsRearranged(a, b, names);
    CodegenBatch.RootTypesOrderIndependent(cfg, Decls(a, names), Decls(b, names));
  }

  /** Nor do the selected files and the verdict, when no two descriptors share a file name. */
  lemma VerdictFileOrder(cfg: Config, a: seq<ProtoFile>, b: seq<ProtoFile>, names: seq<string>)
    requires multiset(a) == multiset(b) && NamesApart(a)
    ensures Selected(a, names) == Selected(b, names)
    ensures Acceptable(cfg, Selected(a, names), RootTypes(cfg, Decls(a, names))) <==>
            Acceptable(cfg, Selected(b, names), RootTypes(cfg, Decls(b, names)))
  {
    hide Selected, RootTypes, Decls, Acceptable, NamesApart;
    SameMembers(a, b);
    SelectedFrom(a, b, names);
    RootTypesFileOrder(cfg, a, b, names);
  }
}
