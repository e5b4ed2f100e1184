/** The registry-generation pass of the build script: it scans the generated
    bindings for codec descriptors `asn_DEF_<Name>` of type
    `asn_TYPE_descriptor_t` whose `<Name>` is a struct of the same file, and
    appends one `impl ASN1GenType for <Name>` per descriptor found. */
module Registry {
  import opened Wrappers
  import opened RustStr
  import opened Syntax

  /** Why the pass aborts the build. */
  datatype Panic =
    | ParseFailed             // `expect("Unable to parse generated binding")`
    | SliceNotAtCharBoundary  // `&name[n..]` with `n` not a character boundary of `name`

  const DescriptorPrefix: string := "asn_DEF_"
  /** `"asn_DEF_".len()`, the byte offset at which a descriptor name is cut. */
  const PrefixLen: nat := 8
  const DescriptorTypeName: string := "asn_TYPE_descriptor_t"

  lemma PrefixLenIsByteLen()
    ensures ByteLen(DescriptorPrefix) == PrefixLen
  {
    AsciiByteLen(DescriptorPrefix);
  }

  /* ---------------------------------------------------------------------
     is_struct
     --------------------------------------------------------------------- */

  /** Whether some top-level item of the file is a struct called `name`. */
  function IsStruct(name: string, items: seq<Item>): (r: bool)
    ensures r <==> exists i :: 0 <= i < |items| && items[i] == Struct(name)
  {
    if items == [] then false
    else if items[0] == Struct(name) then true
    else
      var r := IsStruct(name, items[1..]);
      assert forall i :: 1 <= i < |items| ==> items[i] == items[1..][i - 1];
      r
  }

  /* ---------------------------------------------------------------------
     find_descriptors: the specification
     --------------------------------------------------------------------- */

  /** A type written as the single identifier `asn_TYPE_descriptor_t`. */
  predicate IsDescriptorType(ty: Type)
  {
    ty.PathType? && GetIdent(ty.path) == Some(DescriptorTypeName)
  }

  /** `f` is a `static name: asn_TYPE_descriptor_t` declaration. */
  predicate IsDescriptorStatic(f: ForeignItem, name: string)
  {
    f.Static? && f.ident == name && IsDescriptorType(f.ty)
  }

  /** Some `extern` block of the file declares `static name: asn_TYPE_descriptor_t`. */
  ghost predicate DeclaresDescriptorStatic(items: seq<Item>, name: string)
  {
    exists i, j :: 0 <= i < |items| && items[i].ForeignMod? && 0 <= j < |items[i].items| &&
      IsDescriptorStatic(items[i].items[j], name)
  }

  /** The names of the descriptor statics of one `extern` block, in block order. */
  function BlockCandidates(fs: seq<ForeignItem>): seq<string>
  {
    if fs == [] then []
    else
      var f := fs[|fs| - 1];
      if f.Static? && IsDescriptorType(f.ty) then BlockCandidates(fs[..|fs| - 1]) + [f.ident]
      else BlockCandidates(fs[..|fs| - 1])
  }

  /** The names of all descriptor statics of the file: `extern` blocks in file
      order, statics in block order, repetitions kept. */
  function Candidates(items: seq<Item>): seq<string>
  {
    if items == [] then []
    else
      var last := items[|items| - 1];
      if last.ForeignMod? then Candidates(items[..|items| - 1]) + BlockCandidates(last.items)
      else Candidates(items[..|items| - 1])
  }

  /** A descriptor name is kept when its text after the first `PrefixLen`
      bytes names a struct of the file. */
  predicate Qualifies(name: string, items: seq<Item>)
  {
    var x := SliceFrom(name, PrefixLen);
    x.Some? && IsStruct(x.value, items)
  }

  /** The names that qualify, in their order, repetitions kept. */
  function Keep(names: seq<string>, items: seq<Item>): (r: seq<string>)
    ensures forall d :: d in r ==> d in names && Qualifies(d, items)
  {
    if names == [] then []
    else
      var last := names[|names| - 1];
      if Qualifies(last, items) then Keep(names[..|names| - 1], items) + [last]
      else Keep(names[..|names| - 1], items)
  }

  /** What `find_descriptors` returns when it does not panic. */
  function Descriptors(file: File): seq<string>
  {
    Keep(Candidates(file.items), file.items)
  }

  /** Every name can be cut at byte `PrefixLen` without a panic. */
  predicate AllCuttable(names: seq<string>)
  {
    names == [] ||
    (AllCuttable(names[..|names| - 1]) && SliceFrom(names[|names| - 1], PrefixLen).Some?)
  }

  /** `find_descriptors` panics once it meets a descriptor static whose name
      cannot be cut at byte `PrefixLen`. */
  predicate Panics(file: File)
  {
    !AllCuttable(Candidates(file.items))
  }

  /* ---------------------------------------------------------------------
     find_descriptors: the scan
     --------------------------------------------------------------------- */

  /** `find_descriptors`. `parsed` is what `syn::parse_file` makes of the
      bindings text (`None` when they do not parse). */
  method FindDescriptors(parsed: Option<File>) returns (r: Outcome<seq<string>, Panic>)
    ensures parsed.None? ==> r == Panicked(ParseFailed)
    ensures parsed.Some? ==> (r.Panicked? <==> Panics(parsed.value))
    ensures parsed.Some? && r.Panicked? ==> r.reason == SliceNotAtCharBoundary
    ensures parsed.Some? && r.Done? ==> r.value == Descriptors(parsed.value)
  {
    if parsed.None? {
      return Panicked(ParseFailed);
    }
    var items := parsed.value.items;
    var ids: seq<string> := [];
    var i := 0;
    while i < |items|
      invariant 0 <= i <= |items|
      invariant ids == Keep(Candidates(items[..i]), items)
      invariant AllCuttable(Candidates(items[..i]))
    {
      ScanStep(items, i);
      match items[i] {
        case ForeignMod(fs) =>
          var found := ScanForeignMod(fs, items);
          if found.Panicked? {
            return found;
          }
          ids := ids + found.value;
        case Struct(_) =>
        case OtherItem =>
      }
      i := i + 1;
    }
    assert items[..i] == items;
    return Done(ids);
  }

  /** The inner loop of `find_descriptors` over the items of one `extern`
      block; `items` is the whole file, searched by `IsStruct`. */
  method ScanForeignMod(fs: seq<ForeignItem>, items: seq<Item>) returns (r: Outcome<seq<string>, Panic>)
    ensures r.Panicked? <==> !AllCuttable(BlockCandidates(fs))
    ensures r.Panicked? ==> r.reason == SliceNotAtCharBoundary
    ensures r.Done? ==> r.value == Keep(BlockCandidates(fs), items)
  {
    var ids: seq<string> := [];
    var j := 0;
    while j < |fs|
      invariant 0 <= j <= |fs|
      invariant ids == Keep(BlockCandidates(fs[..j]), items)
      invariant AllCuttable(BlockCandidates(fs[..j]))
    {
      BlockCandidatesSnoc(fs, j);
      match fs[j] {
        case Static(name, ty) =>
          match ty {
            case PathType(path) =>
              var ident := GetIdent(path);
              if ident.Some? && ident.value == DescriptorTypeName {
                var suffix := SliceFrom(name, PrefixLen);
                AllCuttableSnoc(BlockCandidates(fs[..j]), name);
                if suffix.None? {
                  AllCuttableAppend(BlockCandidates(fs[..j + 1]), BlockCandidates(fs[j + 1..]));
                  BlockCandidatesAppend(fs[..j + 1], fs[j + 1..]);
                  assert fs[..j + 1] + fs[j + 1..] == fs;
                  return Panicked(SliceNotAtCharBoundary);
                }
                KeepSnoc(BlockCandidates(fs[..j]), name, items);
                if IsStruct(suffix.value, items) {
                  ids := ids + [name];
                }
              }
            case OtherType =>
          }
        case OtherForeignItem =>
      }
      j := j + 1;
    }
    assert fs[..j] == fs;
    return Done(ids);
  }

  lemma BlockCandidatesSnoc(fs: seq<ForeignItem>, j: nat)
    requires j < |fs|
    ensures fs[j].Static? && IsDescriptorType(fs[j].ty) ==>
      BlockCandidates(fs[..j + 1]) == BlockCandidates(fs[..j]) + [fs[j].ident]
    ensures !(fs[j].Static? && IsDescriptorType(fs[j].ty)) ==>
      BlockCandidates(fs[..j + 1]) == BlockCandidates(fs[..j])
  {
    assert fs[..j + 1][..j] == fs[..j];
  }

  lemma KeepSnoc(names: seq<string>, name: string, items: seq<Item>)
    ensures Qualifies(name, items) ==> Keep(names + [name], items) == Keep(names, items) + [name]
    ensures !Qualifies(name, items) ==> Keep(names + [name], items) == Keep(names, items)
  {
    assert (names + [name])[..|names|] == names;
  }

  /** What scanning item `i` adds to the names seen before it. */
  lemma ScanStep(items: seq<Item>, i: nat)
    requires i < |items|
    ensures items[i].ForeignMod? ==>
      Keep(Candidates(items[..i + 1]), items) ==
        Keep(Candidates(items[..i]), items) + Keep(BlockCandidates(items[i].items), items)
    ensures !items[i].ForeignMod? ==> Candidates(items[..i + 1]) == Candidates(items[..i])
    ensures items[i].ForeignMod? ==>
      (AllCuttable(Candidates(items[..i + 1])) <==>
        AllCuttable(Candidates(items[..i])) && AllCuttable(BlockCandidates(items[i].items)))
    ensures items[i].ForeignMod? && !AllCuttable(BlockCandidates(items[i].items)) ==>
      !AllCuttable(Candidates(items))
  {
    CandidatesOfPrefix(items, i + 1);
    if items[i].ForeignMod? {
      var fs := items[i].items;
      KeepAppend(Candidates(items[..i]), BlockCandidates(fs), items);
      AllCuttableAppend(Candidates(items[..i]), BlockCandidates(fs));
      AllCuttableAppend(Candidates(items[..i + 1]), Candidates(items[i + 1..]));
    }
  }

  lemma CandidatesOfPrefix(items: seq<Item>, i: nat)
    requires 0 < i <= |items|
    ensures items[i - 1].ForeignMod? ==>
      Candidates(items[..i]) == Candidates(items[..i - 1]) + BlockCandidates(items[i - 1].items)
    ensures !items[i - 1].ForeignMod? ==> Candidates(items[..i]) == Candidates(items[..i - 1])
    ensures Candidates(items) == Candidates(items[..i]) + Candidates(items[i..])
  {
    assert items[..i][..i - 1] == items[..i - 1];
    assert items == items[..i] + items[i..];
    CandidatesAppend(items[..i], items[i..]);
  }

  lemma AllCuttableSnoc(names: seq<string>, name: string)
    ensures AllCuttable(names + [name]) <==> AllCuttable(names) && SliceFrom(name, PrefixLen).Some?
  {
    assert (names + [name])[..|names|] == names;
  }

  lemma {:induction false} AllCuttableAppend(a: seq<string>, b: seq<string>)
    ensures AllCuttable(a + b) <==> AllCuttable(a) && AllCuttable(b)
    decreases |b|
  {
    if b == [] {
      assert a + b == a;
    } else {
      assert (a + b)[..|a + b| - 1] == a + b[..|b| - 1];
      AllCuttableAppend(a, b[..|b| - 1]);
    }
  }

  lemma {:induction false} AllCuttableMembership(names: seq<string>)
    ensures AllCuttable(names) <==> forall m :: m in names ==> SliceFrom(m, PrefixLen).Some?
  {
    if names != [] {
      var init, last := names[..|names| - 1], names[|names| - 1];
      AllCuttableMembership(init);
      assert names == init + [last];
      assert AllCuttable(names) <==> AllCuttable(init) && SliceFrom(last, PrefixLen).Some?;
      assert forall m :: m in names <==> m in init || m == last;
    }
  }

  /* ---------------------------------------------------------------------
     find_descriptors: what it keeps, in which order, how often
     --------------------------------------------------------------------- */

  lemma {:induction false} BlockCandidatesAppend(a: seq<ForeignItem>, b: seq<ForeignItem>)
    ensures BlockCandidates(a + b) == BlockCandidates(a) + BlockCandidates(b)
    decreases |b|
  {
    if b == [] {
      assert a + b == a;
    } else {
      assert (a + b)[..|a + b| - 1] == a + b[..|b| - 1];
      BlockCandidatesAppend(a, b[..|b| - 1]);
    }
  }

  /** Candidates of consecutive parts of a file follow each other: the scan
      keeps file order. */
  lemma {:induction false} CandidatesAppend(a: seq<Item>, b: seq<Item>)
    ensures Candidates(a + b) == Candidates(a) + Candidates(b)
    decreases |b|
  {
    if b == [] {
      assert a + b == a;
    } else {
      assert (a + b)[..|a + b| - 1] == a + b[..|b| - 1];
      CandidatesAppend(a, b[..|b| - 1]);
    }
  }

  /** Keeping commutes with concatenation: order among kept names is unchanged. */
  lemma {:induction false} KeepAppend(a: seq<string>, b: seq<string>, items: seq<Item>)
    ensures Keep(a + b, items) == Keep(a, items) + Keep(b, items)
    decreases |b|
  {
    if b == [] {
      assert a + b == a;
    } else {
      assert (a + b)[..|a + b| - 1] == a + b[..|b| - 1];
      KeepAppend(a, b[..|b| - 1], items);
    }
  }

  lemma {:induction false} BlockCandidatesMembership(fs: seq<ForeignItem>, name: string)
    ensures name in BlockCandidates(fs) <==> exists j :: 0 <= j < |fs| && IsDescriptorStatic(fs[j], name)
  {
    if fs != [] {
      var init := fs[..|fs| - 1];
      BlockCandidatesMembership(init, name);
      assert forall j :: 0 <= j < |init| ==> init[j] == fs[j];
    }
  }

  /** A name is a candidate exactly when an `extern` block declares a static
      of that name whose type is the plain identifier `asn_TYPE_descriptor_t`;
      foreign functions, other types and structs never contribute. */
  lemma {:induction false} CandidatesMembership(items: seq<Item>, name: string)
    ensures name in Candidates(items) <==> DeclaresDescriptorStatic(items, name)
  {
    if items != [] {
      var init := items[..|items| - 1];
      var last := items[|items| - 1];
      CandidatesMembership(init, name);
      if last.ForeignMod? {
        BlockCandidatesMembership(last.items, name);
      }
      assert forall i :: 0 <= i < |init| ==> init[i] == items[i];
      if DeclaresDescriptorStatic(items, name) {
        var i, j :| 0 <= i < |items| && items[i].ForeignMod? && 0 <= j < |items[i].items| &&
          IsDescriptorStatic(items[i].items[j], name);
        if i < |init| {
          assert DeclaresDescriptorStatic(init, name);
        }
      }
    }
  }

  /** Every name the pass keeps is a descriptor static of the file whose text
      after byte `PrefixLen` names a top-level struct of the same file, and
      every such static is kept. */
  lemma DescriptorsMembership(file: File, name: string)
    ensures name in Descriptors(file) <==>
      DeclaresDescriptorStatic(file.items, name) &&
      SliceFrom(name, PrefixLen).Some? &&
      exists i :: 0 <= i < |file.items| && file.items[i] == Struct(SliceFrom(name, PrefixLen).value)
  {
    CandidatesMembership(file.items, name);
    KeepMembership(Candidates(file.items), file.items, name);
  }

  lemma {:induction false} KeepMembership(names: seq<string>, items: seq<Item>, name: string)
    ensures name in Keep(names, items) <==> name in names && Qualifies(name, items)
  {
    if names != [] {
      var init := names[..|names| - 1];
      KeepMembership(init, items, name);
      assert names == init + [names[|names| - 1]];
    }
  }

  /** The pass does not deduplicate: a qualifying name is kept as many times
      as it is declared, any other name not at all. */
  lemma {:induction false} KeepCount(names: seq<string>, items: seq<Item>, name: string)
    ensures multiset(Keep(names, items))[name] ==
      if Qualifies(name, items) then multiset(names)[name] else 0
  {
    if names != [] {
      var init := names[..|names| - 1];
      var last := names[|names| - 1];
      KeepCount(init, items, name);
      assert names == init + [last];
      assert multiset(names) == multiset(init) + multiset{last};
    }
  }

  /** The pass panics exactly when the file declares a descriptor static
      whose name has no character boundary at byte `PrefixLen`. */
  lemma PanicsIff(file: File)
    ensures Panics(file) <==>
      exists name :: DeclaresDescriptorStatic(file.items, name) && SliceFrom(name, PrefixLen).None?
  {
    AllCuttableMembership(Candidates(file.items));
    forall name ensures name in Candidates(file.items) <==> DeclaresDescriptorStatic(file.items, name) {
      CandidatesMembership(file.items, name);
    }
  }

  /** In particular, a descriptor static with a name shorter than `PrefixLen`
      bytes makes the pass panic. */
  lemma ShortDescriptorNamePanics(file: File, name: string)
    requires DeclaresDescriptorStatic(file.items, name)
    requires ByteLen(name) < PrefixLen
    ensures Panics(file)
  {
    SliceBeyondEnd(name, PrefixLen);
    CandidatesMembership(file.items, name);
    AllCuttableMembership(Candidates(file.items));
  }
}
