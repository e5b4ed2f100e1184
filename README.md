# ieee1609dot3codec-sys build script: registry generation

This project models the hand-written logic of the crate's build script.
asn1c compiles the IEEE 1609.3 ASN.1 module to C, and bindgen produces Rust
bindings for that C. The build script then does two things, and both are
modelled here:

- It classifies the files asn1c wrote into the output directory: `.c` files
  are sources to compile and `.h` files are headers to bind.
- It scans the parsed bindings for codec descriptors. A descriptor is an
  `extern` static of type `asn_TYPE_descriptor_t`. It is kept only when its
  name with the first 8 bytes (the length of `asn_DEF_`) removed names a
  struct declared in the same file.
  For each descriptor it keeps, it appends an
  `impl ASN1GenType for T { unsafe fn get_descriptor() … { &asn_DEF_T } }`
  to the bindings text.

Modules:

- `Wrappers`: `Option`, and `Outcome`, which is a result or a Rust panic.
- `Syntax`: the part of a parsed Rust file that the scan looks at. That is
  items (struct, `extern` block, other), foreign items (static, other),
  types (path, other), and `Path::get_ident`.
- `RustStr`: the UTF-8 byte length of a string.
  - `SliceFrom` is Rust's `&s[n..]`, which panics unless byte `n` is a
    character boundary.
  - `ReplaceAll` is Rust's `str::replace`.
- `Registry`: `is_struct` and `find_descriptors`.
  - The loops are methods.
  - They are proved against the specification functions `Candidates`
    (descriptor statics in file order), `Keep` (those whose suffix names a
    struct) and `Descriptors`.
- `TraitGen`: the impl template, `generate_trait_impl` and
  `generate_traits`. `generate_traits` is proved against `ImplsFor`, the
  concatenation of one filled template per type name.
- `SourceScan`: the classification in `find_generated_sources_and_headers`,
  proved against `Sources` and `Headers`.

Rust panics are part of the model. Each panic becomes an `Outcome.Panicked`
result:

- `parse_file(..).expect(..)` on a parse failure.
- `&name[8..]` on a name with no character boundary at byte 8. This covers
  names shorter than 8 bytes.
- `to_str().unwrap()` on a file extension that is not valid UTF-8.

## Model

| member | source | states |
|---|---|---|
| Registry.IsStruct | build.rs:121-133 | true exactly when some top-level item of the file is a struct with exactly that name; no other item kind counts |
| Syntax.GetIdent | build.rs:99 | a path yields `Some(x)` exactly when it is the plain path `x`: no leading `::`, one segment `x`, no arguments; every other path yields `None` |
| Registry.FindDescriptors | build.rs:86-119 | a parse failure panics; otherwise the pass panics exactly when `Panics` holds, and else returns `Descriptors(file)` |
| Registry.ScanForeignMod | build.rs:95-112 | the inner loop over one `extern` block panics exactly when some descriptor static in it cannot be cut at byte 8, and else returns those of its descriptor statics whose suffix names a struct, in block order |
| Registry.CandidatesMembership | build.rs:92-116 | a name is a candidate exactly when some `extern` block of the file declares a static of that name whose type is the plain path `asn_TYPE_descriptor_t`; foreign functions, other types and structs never contribute |
| Registry.BlockCandidatesMembership | build.rs:95-106 | the same, within one `extern` block |
| Registry.DescriptorsMembership | build.rs:92-104 | a name is returned exactly when it is a descriptor static of the file, it can be cut at byte 8, and the text after byte 8 is the name of a top-level struct of the same file |
| Registry.KeepMembership | build.rs:102-104 | the filter keeps a name exactly when it is among the candidates and its suffix names a struct |
| Registry.KeepCount | build.rs:102-104 | no deduplication: a qualifying name occurs in the result as often as among the candidates, any other name not at all |
| Registry.CandidatesAppend | build.rs:92-94 | candidates of consecutive runs of items are concatenated in file order |
| Registry.BlockCandidatesAppend | build.rs:95-97 | candidates of consecutive runs of foreign items are concatenated in block order |
| Registry.KeepAppend | build.rs:102-104 | the filter keeps the relative order of the candidates |
| Registry.AllCuttableMembership | build.rs:101-102 | a list of names is cuttable exactly when every name in it has a character boundary at byte 8 |
| Registry.AllCuttableAppend | build.rs:101-102 | cuttability of a concatenation is cuttability of both parts |
| Registry.PanicsIff | build.rs:89-102 | the pass panics exactly when the file declares some descriptor static whose name has no character boundary at byte 8 |
| Registry.ShortDescriptorNamePanics | build.rs:89-102 | a descriptor static with a name shorter than 8 bytes makes the pass panic, whatever else the file holds |
| Registry.PrefixLenIsByteLen | build.rs:89 | the cut offset 8 is the byte length of `asn_DEF_` |
| RustStr.ByteLen | build.rs:89 | `str::len`: a string of `c` characters is between `c` and `4c` bytes long in UTF-8 |
| RustStr.ReplaceAll | build.rs:143 | `str::replace`: replacing a pattern by itself changes nothing, and a text in which a non-empty pattern never occurs is returned unchanged |
| RustStr.SliceFrom | build.rs:102 | `&s[n..]`: when it succeeds, the result is a suffix of `s` whose prefix is exactly `n` bytes long; it fails exactly when no prefix of `s` is `n` bytes long |
| RustStr.SliceAfterPrefix | build.rs:150 | cutting `p + x` at the byte length of `p` gives back exactly `x` |
| RustStr.SliceBeyondEnd | build.rs:102 | cutting beyond the byte length of a string panics |
| RustStr.ByteLenAppend | build.rs:89 | the byte length of a concatenation is the sum of the byte lengths |
| RustStr.AsciiByteLen | build.rs:89 | an ASCII string has as many bytes as characters |
| RustStr.ReplaceSkips | build.rs:143 | for a pattern of two or more characters, `replace` copies text in which every occurrence of the pattern's first character is followed, inside the text, by a character other than its second, and continues after it |
| RustStr.ReplaceAtMatch | build.rs:143 | `replace` substitutes an occurrence of the pattern at the front and continues after it |
| RustStr.ReplaceTwoPlaceholders | build.rs:143 | for a pattern of two or more characters, a text holding the pattern twice, with pieces around it in which the pattern cannot start (as in `ReplaceSkips`), has both occurrences replaced and everything else copied |
| TraitGen.FixedPartsHaveNoPlaceholder | build.rs:136-142 | no `{TYPENAME}` starts in the fixed text of the template, so only the two placeholders are replaced |
| TraitGen.GenerateTraitImpl | build.rs:135-144 | the result is the template's fixed text with `typename` at both placeholders and nothing else changed |
| TraitGen.GenerateTraitImplShape | build.rs:135-144 | the generated impl contains `impl ASN1GenType for typename` and `&asn_DEF_typename` |
| TraitGen.TypeNames | build.rs:148-150 | one type name per descriptor, in order, each the descriptor cut at byte 8 |
| TraitGen.GenerateTraits | build.rs:146-154 | panics exactly when `find_descriptors` does; otherwise always returns `Some` of the original bindings followed by one impl per found descriptor, in the order they were found |
| TraitGen.AppendImpls | build.rs:149-152 | the loop appends the impls for the cut descriptor names to the bindings, leaving the bindings as a prefix |
| TraitGen.DescriptorsCuttable | build.rs:147-150 | every name `find_descriptors` returns can be cut at byte 8 again without panicking |
| TraitGen.ImplsForAppend | build.rs:149-152 | the impls of consecutive runs of type names are concatenated in order |
| TraitGen.ImplsForAt | build.rs:149-152 | the k-th type name's impl sits between the impls of the names before it and those after it |
| TraitGen.DescriptorNameRoundTrip | build.rs:139-150 | for `asn_DEF_X`, cutting 8 bytes gives `X`, and the impl for `X` refers to `&asn_DEF_X` |
| TraitGen.RePrefixRoundTrip | build.rs:139-150 | putting `asn_DEF_` back in front of a cut name gives the name back exactly when it began with `asn_DEF_`, which build.rs does not check |
| TraitGen.ImplRefersToFoundStatic | build.rs:146-154 | for a found descriptor `asn_DEF_X`, `X` is a struct of the file and the generated text contains `impl ASN1GenType for X` and `&asn_DEF_X` |
| SourceScan.FindGeneratedSourcesAndHeaders | build.rs:13-33 | a non-directory gives two empty lists; otherwise the scan panics exactly when some file has a non-UTF-8 extension, and else returns `(Sources, Headers)` of the listing |
| SourceScan.SelectedMembership | build.rs:21-27 | a path is listed for an extension exactly when some entry with that path is a file whose extension is exactly that text |
| SourceScan.SelectedAppend | build.rs:18-30 | the lists keep directory order |
| SourceScan.PartitionCount | build.rs:23-27 | no entry qualifies for both lists, and the two lists together have at most one slot per entry; together they cover the listing exactly when every entry is a `.c` or `.h` file |

## Left out

- `main` (build.rs:35-84) is not modelled. It spawns the external `asn1c` compiler, compiles the C code with `cc`, runs `bindgen` and writes `bindings.rs`. All of that is process and file I/O.
- `syn::parse_file` is not modelled. The model takes its result as a parameter, `Option<File>`, where `None` is a parse failure. The bindings text is therefore not tied to the parsed file, and the abstract syntax keeps only what the scan looks at.
- The value of `Ident::to_string` is taken to be the identifier's text. Rust raw identifiers (`r#name`) are not distinguished.
- Statics are not distinguished by mutability or attributes. build.rs ignores both.
- `fs::read_dir`, `DirEntry::path` and `Path::is_file`, with their `unwrap`s, are not modelled. Each entry arrives with its `is_file` result and its extension already computed.
- How `Path::extension` derives an extension from a file name is not modelled.
- `PathBuf` values are modelled as strings.
- src/lib.rs is not part of this model. It textually includes the generated bindings, and its test calls asn1c's C encoder through unsafe foreign calls.
- The crate's owning-handle and encode/decode wrappers are not part of this model.
- Memory use and allocation are not modelled. Neither are repeated in-place pushes to the bindings `String`; the model builds the same text by concatenation.
