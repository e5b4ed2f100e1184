/** The directory scan that collects the C sources and headers asn1c wrote
    into the build's output directory (`find_generated_sources_and_headers`).
    The filesystem is abstracted: the caller supplies whether `out_dir` is a
    directory and, in listing order, what `read_dir` yields for it. */
module SourceScan {
  import opened Wrappers

  /** What `Path::extension` returned, as seen by `OsStr::to_str`. */
  datatype OsExtension = Utf8(text: string) | NotUtf8

  /** One directory entry: its path, whether `is_file` holds, and its
      extension, if any. */
  datatype Entry = Entry(path: string, isFile: bool, extension: Option<OsExtension>)

  /** The one panic the classification itself can raise: `to_str().unwrap()`
      on an extension that is not valid UTF-8. */
  datatype ScanPanic = ExtensionNotUtf8

  /** The scan panics on this entry. Entries that are not files are never
      asked for their extension. */
  predicate Unreadable(e: Entry) {
    e.isFile && e.extension == Some(NotUtf8)
  }

  /** No entry of `es` makes the scan panic. */
  predicate AllReadable(es: seq<Entry>) {
    forall i :: 0 <= i < |es| ==> !Unreadable(es[i])
  }

  /** The entry is a file whose extension is exactly `ext`. */
  predicate HasExtension(e: Entry, ext: string) {
    e.isFile && e.extension == Some(Utf8(ext))
  }

  /** The paths of the entries of `es` that are files with extension
      exactly `ext`, in listing order. */
  function Selected(es: seq<Entry>, ext: string): (r: seq<string>)
    ensures |r| <= |es|
  {
    if es == [] then []
    else if HasExtension(es[|es| - 1], ext) then Selected(es[..|es| - 1], ext) + [es[|es| - 1].path]
    else Selected(es[..|es| - 1], ext)
  }

  /** The first list: the `.c` files. */
  function Sources(es: seq<Entry>): seq<string> {
    Selected(es, "c")
  }

  /** The second list: the `.h` files. */
  function Headers(es: seq<Entry>): seq<string> {
    Selected(es, "h")
  }

  method FindGeneratedSourcesAndHeaders(outDirIsDir: bool, entries: seq<Entry>)
    returns (r: Outcome<(seq<string>, seq<string>), ScanPanic>)
    ensures !outDirIsDir ==> r == Done(([], []))
    ensures r.Panicked? <==> outDirIsDir && !AllReadable(entries)
    ensures outDirIsDir && r.Done? ==> r.value == (Sources(entries), Headers(entries))
  {
    var sources: seq<string> := [];
    var headers: seq<string> := [];
    if outDirIsDir {
      for i := 0 to |entries|
        invariant sources == Sources(entries[..i])
        invariant headers == Headers(entries[..i])
        invariant AllReadable(entries[..i])
      {
        var path := entries[i].path;
        if entries[i].isFile {
          match entries[i].extension {
            case Some(ext) =>
              match ext {
                case NotUtf8 =>
                  return Panicked(ExtensionNotUtf8);
                case Utf8(text) =>
                  if text == "c" {
                    sources := sources + [path];
                  } else if text == "h" {
                    headers := headers + [path];
                  }
              }
            case None =>
          }
        }
        assert entries[..i + 1][..i] == entries[..i];
      }
      assert entries[..|entries|] == entries;
    }
    return Done((sources, headers));
  }

  /** A path is listed for `ext` exactly when some entry with that path is a
      file whose extension is exactly `ext`. */
  lemma {:induction false} SelectedMembership(es: seq<Entry>, ext: string, p: string)
    ensures p in Selected(es, ext) <==>
      exists i :: 0 <= i < |es| && HasExtension(es[i], ext) && es[i].path == p
  {
    if es != [] {
      var init := es[..|es| - 1];
      SelectedMembership(init, ext, p);
      if p in Selected(es, ext) && p !in Selected(init, ext) {
        assert HasExtension(es[|es| - 1], ext) && es[|es| - 1].path == p;
      }
      if exists i :: 0 <= i < |es| && HasExtension(es[i], ext) && es[i].path == p {
        var i :| 0 <= i < |es| && HasExtension(es[i], ext) && es[i].path == p;
        if i < |es| - 1 {
          assert init[i] == es[i];
        }
      }
    }
  }

  /** Listing order is kept: the entries of a longer listing are selected
      after those of its prefix. */
  lemma {:induction false} SelectedAppend(a: seq<Entry>, b: seq<Entry>, ext: string)
    ensures Selected(a + b, ext) == Selected(a, ext) + Selected(b, ext)
  {
    if b == [] {
      assert a + b == a;
    } else {
      var init := b[..|b| - 1];
      assert (a + b)[..|a + b| - 1] == a + init;
      SelectedAppend(a, init, ext);
    }
  }

  /** Every entry lands in at most one list, and the lists together cover
      the listing exactly when every entry is a `.c` or `.h` file. */
  lemma {:induction false} PartitionCount(es: seq<Entry>)
    ensures forall i :: 0 <= i < |es| ==> !(HasExtension(es[i], "c") && HasExtension(es[i], "h"))
    ensures |Sources(es)| + |Headers(es)| <= |es|
    ensures |Sources(es)| + |Headers(es)| == |es| <==>
      forall i :: 0 <= i < |es| ==> HasExtension(es[i], "c") || HasExtension(es[i], "h")
  {
    if es != [] {
      var init := es[..|es| - 1];
      PartitionCount(init);
      var last := es[|es| - 1];
      assert !(HasExtension(last, "c") && HasExtension(last, "h"));
      if forall i :: 0 <= i < |es| ==> HasExtension(es[i], "c") || HasExtension(es[i], "h") {
        forall i | 0 <= i < |init|
          ensures HasExtension(init[i], "c") || HasExtension(init[i], "h")
        {
          assert init[i] == es[i];
        }
      }
      if |Sources(es)| + |Headers(es)| == |es| {
        forall i | 0 <= i < |es|
          ensures HasExtension(es[i], "c") || HasExtension(es[i], "h")
        {
          if i < |es| - 1 {
            assert init[i] == es[i];
          }
        }
      }
    }
  }
}
