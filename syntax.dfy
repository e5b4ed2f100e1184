/** The part of a parsed Rust source file (as `syn` represents it) that the
    registry generator inspects. Everything the generator never looks at is
    collapsed into an `Other…` alternative. */
module Syntax {
  import opened Wrappers

  /** One `::`-separated segment of a path; `hasArguments` is true for
      segments written with generic or function-style arguments (`Vec<u8>`). */
  datatype PathSegment = PathSegment(ident: string, hasArguments: bool)

  /** A path such as `asn_TYPE_descriptor_t` or `::std::os::raw::c_int`. */
  datatype Path = Path(leadingColon: bool, segments: seq<PathSegment>)

  /** `Type::Path`, or any other kind of type (reference, array, tuple, ...). */
  datatype Type = PathType(path: Path) | OtherType

  /** An item inside an `extern { ... }` block: a `static` declaration, or
      anything else (a foreign function, a foreign type, a macro). */
  datatype ForeignItem = Static(ident: string, ty: Type) | OtherForeignItem

  /** A top-level item: a struct declaration, an `extern` block, or anything
      else (functions, enums, unions, type aliases, constants, modules, ...). */
  datatype Item = Struct(ident: string) | ForeignMod(items: seq<ForeignItem>) | OtherItem

  /** A parsed source file: its top-level items in source order. */
  datatype File = File(items: seq<Item>)

  /** `Path::get_ident`: the identifier of a path made of exactly one plain
      segment with no leading `::` and no arguments, otherwise `None`. */
  function GetIdent(p: Path): (r: Option<string>)
    ensures r.Some? ==> p == Path(false, [PathSegment(r.value, false)])
    ensures r.None? ==> forall x :: p != Path(false, [PathSegment(x, false)])
  {
    if !p.leadingColon && |p.segments| == 1 && !p.segments[0].hasArguments
    then Some(p.segments[0].ident)
    else None
  }
}
