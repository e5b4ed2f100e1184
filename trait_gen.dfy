/** The code-generation half of the registry pass: one `ASN1GenType` impl
    per descriptor found, appended to the bindings text. */
module TraitGen {
  import opened Wrappers
  import opened RustStr
  import opened Syntax
  import opened Registry

  /** The placeholder the template substitutes. */
  const Placeholder: string := "{TYPENAME}"
  const ImplHeader: string := "impl ASN1GenType for "

  /** The impl template, cut at its two placeholders:
      `Head {TYPENAME} Body {TYPENAME} Tail`. `Body` ends with the reference
      `&asn_DEF_` that the second placeholder completes. The longer lines are
      spelled in short pieces. */
  const Indent: string := "\n    "
  const Head: string := Indent + ImplHeader
  const OpenBrace: string := ['{', '\n']
  const SignatureIndent: string := "        unsafe fn "
  const SignatureName: string := "get_descriptor() "
  const SignatureArrow: string := "-> &'static "
  const Signature: string := SignatureIndent + SignatureName + SignatureArrow + DescriptorTypeName + " "
  const ReturnIndent: string := "            "
  const DescriptorRef: string := "&" + DescriptorPrefix
  const BodyFront: string := OpenBrace + (Signature + (OpenBrace + ReturnIndent))
  const Body: string := OpenBrace + (Signature + (OpenBrace + (ReturnIndent + DescriptorRef)))
  const Tail: string := "\n        }\n    }\n"
  const Template: string := Head + Placeholder + Body + Placeholder + Tail

  lemma LinePiecesLackBrace()
    ensures Placeholder[0] == '{'
    ensures Lacks(Indent, '{') && Lacks(ImplHeader, '{') && Lacks(Tail, '{')
    ensures Lacks(ReturnIndent, '{') && Lacks("&", '{') && Lacks(DescriptorPrefix, '{')
  {
  }

  lemma SignaturePiecesLackBrace()
    ensures Lacks(SignatureIndent, '{') && Lacks(SignatureName, '{') && Lacks(SignatureArrow, '{')
    ensures Lacks(DescriptorTypeName, '{') && Lacks(" ", '{')
  {
  }

  lemma SignatureLacksBrace()
    ensures Lacks(Signature, '{')
  {
    SignaturePiecesLackBrace();
    LacksAppend(SignatureIndent, SignatureName, '{');
    LacksAppend(SignatureIndent + SignatureName, SignatureArrow, '{');
    LacksAppend(SignatureIndent + SignatureName + SignatureArrow, DescriptorTypeName, '{');
    LacksAppend(SignatureIndent + SignatureName + SignatureArrow + DescriptorTypeName, " ", '{');
  }

  lemma ReferenceTailNoPlaceholder()
    ensures NoMatchStartsIn(ReturnIndent + DescriptorRef, Placeholder)
  {
    LinePiecesLackBrace();
    LacksAppend("&", DescriptorPrefix, '{');
    NoFirstCharNoMatch(DescriptorRef, Placeholder);
    NoMatchAfterLacking(ReturnIndent, DescriptorRef, Placeholder);
  }

  /** No `{TYPENAME}` starts inside the fixed parts of the template: every
      `{` in them is followed by a newline. */
  lemma FixedPartsHaveNoPlaceholder()
    ensures NoMatchStartsIn(Head, Placeholder)
    ensures NoMatchStartsIn(Body, Placeholder)
    ensures NoMatchStartsIn(Tail, Placeholder)
  {
    LinePiecesLackBrace();
    LacksAppend(Indent, ImplHeader, '{');
    NoFirstCharNoMatch(Head, Placeholder);
    NoFirstCharNoMatch(Tail, Placeholder);
    ReferenceTailNoPlaceholder();
    SignatureLacksBrace();
    var rest := ReturnIndent + DescriptorRef;
    NoMatchAfterPair('{', '\n', rest, Placeholder);
    NoMatchAfterLacking(Signature, OpenBrace + rest, Placeholder);
    NoMatchAfterPair('{', '\n', Signature + (OpenBrace + rest), Placeholder);
  }

  lemma BodyEndsWithReference()
    ensures Body == BodyFront + DescriptorRef
  {
    AppendAssoc(OpenBrace, Signature + (OpenBrace + ReturnIndent), DescriptorRef);
    AppendAssoc(Signature, OpenBrace + ReturnIndent, DescriptorRef);
    AppendAssoc(OpenBrace, ReturnIndent, DescriptorRef);
  }

  /** `generate_trait_impl`: the template with every `{TYPENAME}` replaced by `typename`. */
  function GenerateTraitImpl(typename: string): (r: string)
    ensures r == Head + typename + Body + typename + Tail
  {
    FixedPartsHaveNoPlaceholder();
    ReplaceTwoPlaceholders(Head, Body, Tail, Placeholder, typename);
    ReplaceAll(Template, Placeholder, typename)
  }

  /** The generated impl is the template with both placeholders filled in:
      an impl of `ASN1GenType` for `typename` whose `get_descriptor` returns
      `&asn_DEF_<typename>`. */
  lemma GenerateTraitImplShape(typename: string)
    ensures Contains(GenerateTraitImpl(typename), ImplHeader + typename)
    ensures Contains(GenerateTraitImpl(typename), "&" + DescriptorPrefix + typename)
  {
    BodyEndsWithReference();
    FilledTemplateContains(Indent, ImplHeader, BodyFront, DescriptorRef, Tail, typename);
  }

  /** The type names of a list of descriptor names: each name with its
      first `PrefixLen` bytes cut off (`&gen_type[n..]`). */
  function TypeNames(descriptors: seq<string>): (ts: seq<string>)
    requires AllCuttable(descriptors)
    ensures |ts| == |descriptors|
    ensures forall k :: 0 <= k < |ts| ==> Some(ts[k]) == SliceFrom(descriptors[k], PrefixLen)
  {
    if descriptors == [] then []
    else
      var init := descriptors[..|descriptors| - 1];
      var ts := TypeNames(init);
      assert forall k :: 0 <= k < |init| ==> init[k] == descriptors[k];
      ts + [SliceFrom(descriptors[|descriptors| - 1], PrefixLen).value]
  }

  /** The impls generated for a list of type names, in list order. */
  function ImplsFor(typenames: seq<string>): string
  {
    if typenames == [] then []
    else ImplsFor(typenames[..|typenames| - 1]) + GenerateTraitImpl(typenames[|typenames| - 1])
  }

  /** `generate_traits`: the bindings text followed by one impl per
      descriptor that `find_descriptors` finds in it, in that order. It
      returns `Some` whenever it returns, and it panics exactly when
      `find_descriptors` does. */
  method GenerateTraits(bindings: string, parsed: Option<File>) returns (r: Outcome<Option<string>, Panic>)
    ensures r.Panicked? <==> parsed.None? || Panics(parsed.value)
    ensures r.Done? ==>
      parsed.Some? && AllCuttable(Descriptors(parsed.value)) &&
      r.value == Some(bindings + ImplsFor(TypeNames(Descriptors(parsed.value))))
  {
    var found := FindDescriptors(parsed);
    if found.Panicked? {
      return Panicked(found.reason);
    }
    DescriptorsCuttable(parsed.value);
    var out := AppendImpls(bindings, found.value);
    return Done(Some(out));
  }

  /** The loop of `generate_traits`: push the impl for each descriptor, cut
      at byte `PrefixLen`, onto the bindings text. */
  method AppendImpls(bindings: string, descriptors: seq<string>) returns (out: string)
    requires AllCuttable(descriptors)
    ensures out == bindings + ImplsFor(TypeNames(descriptors))
  {
    ghost var ts := TypeNames(descriptors);
    out := bindings;
    for k := 0 to |descriptors|
      invariant out == bindings + ImplsFor(ts[..k])
    {
      var genType := SliceFrom(descriptors[k], PrefixLen);
      assert genType == Some(ts[k]);
      var traitImpl := GenerateTraitImpl(genType.value);
      ImplsForSnoc(ts, k);
      AppendAssoc(bindings, ImplsFor(ts[..k]), traitImpl);
      out := out + traitImpl;
    }
    assert ts[..|descriptors|] == ts;
  }

  /** Every name `find_descriptors` returns can be cut at byte `PrefixLen`. */
  lemma DescriptorsCuttable(file: File)
    ensures AllCuttable(Descriptors(file))
  {
    AllCuttableMembership(Descriptors(file));
  }

  lemma {:induction false} ImplsForAppend(a: seq<string>, b: seq<string>)
    ensures ImplsFor(a + b) == ImplsFor(a) + ImplsFor(b)
    decreases |b|
  {
    if b == [] {
      assert a + b == a;
    } else {
      var init, last := b[..|b| - 1], b[|b| - 1];
      assert (a + b)[..|a + b| - 1] == a + init;
      assert (a + b)[|a + b| - 1] == last;
      ImplsForAppend(a, init);
      AppendAssoc(ImplsFor(a), ImplsFor(init), GenerateTraitImpl(last));
    }
  }

  /** The generated text holds exactly one impl per type name, the `k`-th
      impl being the one for the `k`-th name. */
  lemma ImplsForAt(ts: seq<string>, k: nat)
    requires k < |ts|
    ensures ImplsFor(ts) == ImplsFor(ts[..k]) + GenerateTraitImpl(ts[k]) + ImplsFor(ts[k + 1..])
  {
    var p, q := ts[..k + 1], ts[k + 1..];
    SplitAt(ts, k + 1);
    ImplsForAppend(p, q);
    ImplsForSnoc(ts, k);
  }

  lemma ImplsForSnoc(ts: seq<string>, k: nat)
    requires k < |ts|
    ensures ImplsFor(ts[..k + 1]) == ImplsFor(ts[..k]) + GenerateTraitImpl(ts[k])
  {
    var p := ts[..k + 1];
    assert p[..|p| - 1] == ts[..k];
    assert p[|p| - 1] == ts[k];
  }

  predicate HasDescriptorPrefix(name: string)
  {
    |name| >= |DescriptorPrefix| && name[..|DescriptorPrefix|] == DescriptorPrefix
  }

  /** Cutting `asn_DEF_<X>` at byte `PrefixLen` gives back `X`, and the impl
      generated for `X` refers to `&asn_DEF_<X>`, the very static it came from. */
  lemma DescriptorNameRoundTrip(x: string)
    ensures SliceFrom(DescriptorPrefix + x, PrefixLen) == Some(x)
    ensures Contains(GenerateTraitImpl(x), "&" + (DescriptorPrefix + x))
  {
    PrefixLenIsByteLen();
    SliceAfterPrefix(DescriptorPrefix, x);
    GenerateTraitImplShape(x);
    AppendAssoc("&", DescriptorPrefix, x);
  }

  /** The cut does not check the prefix: re-prefixing the cut name gives the
      name back exactly when it starts with `asn_DEF_`. */
  lemma RePrefixRoundTrip(name: string)
    requires SliceFrom(name, PrefixLen).Some?
    ensures DescriptorPrefix + SliceFrom(name, PrefixLen).value == name <==> HasDescriptorPrefix(name)
  {
    if HasDescriptorPrefix(name) {
      var n := |DescriptorPrefix|;
      assert name == DescriptorPrefix + name[n..];
      DescriptorNameRoundTrip(name[n..]);
    }
  }

  /** Every descriptor `asn_DEF_<X>` the pass finds yields an impl for the
      struct `X` of the same file whose descriptor reference is that very
      static. */
  lemma ImplRefersToFoundStatic(file: File, k: nat)
    requires k < |Descriptors(file)|
    requires HasDescriptorPrefix(Descriptors(file)[k])
    ensures AllCuttable(Descriptors(file))
    ensures
      var d := Descriptors(file)[k];
      var x := TypeNames(Descriptors(file))[k];
      DescriptorPrefix + x == d &&
      (exists i :: 0 <= i < |file.items| && file.items[i] == Struct(x)) &&
      Contains(ImplsFor(TypeNames(Descriptors(file))), ImplHeader + x) &&
      Contains(ImplsFor(TypeNames(Descriptors(file))), "&" + d)
  {
    var ds := Descriptors(file);
    DescriptorsCuttable(file);
    var ts := TypeNames(ds);
    var d, x := ds[k], ts[k];
    DescriptorsMembership(file, d);
    RePrefixRoundTrip(d);
    ImplsForAt(ts, k);
    GenerateTraitImplShape(x);
    AppendAssoc("&", DescriptorPrefix, x);
    ContainsWithin(ImplsFor(ts[..k]), GenerateTraitImpl(x), ImplsFor(ts[k + 1..]), ImplHeader + x);
    ContainsWithin(ImplsFor(ts[..k]), GenerateTraitImpl(x), ImplsFor(ts[k + 1..]), "&" + d);
  }
}
