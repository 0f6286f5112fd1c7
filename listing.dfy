// The gemtext listing of a directory, as both Rust file handlers write it
// (src/capsule/file.rs, src/capsule/files.rs): a heading with the requested
// path, then one link line per folder and then per file, each group in
// ascending order.
module Listing {
  import PathUtil
  import StringOrder

  /** One link line: the entry below the requested path, then the label
      (an optional icon and the name). */
  function Line(path: string, item: string, prefix: string): string {
    "=> " + PathUtil.Join(path, item) + " " + prefix + item + "\n"
  }

  function Lines(path: string, items: seq<string>, prefix: string): string
    decreases |items|
  {
    if items == [] then "" else Line(path, items[0], prefix) + Lines(path, items[1..], prefix)
  }

  /** The listing: a heading with the requested path and a blank line,
      the folders, then the files, each group sorted. */
  function Text(path: string, folders: seq<string>, files: seq<string>, folderPrefix: string, filePrefix: string): string {
    "# " + path + "\n\n"
      + Lines(path, StringOrder.Sort(folders), folderPrefix)
      + Lines(path, StringOrder.Sort(files), filePrefix)
  }

  /** The order in which the directory yielded its entries does not show
      in the listing. */
  lemma IgnoresOrder(path: string, folders: seq<string>, files: seq<string>,
                     folders2: seq<string>, files2: seq<string>, folderPrefix: string, filePrefix: string)
    requires multiset(folders) == multiset(folders2) && multiset(files) == multiset(files2)
    ensures Text(path, folders, files, folderPrefix, filePrefix) == Text(path, folders2, files2, folderPrefix, filePrefix)
  {
    StringOrder.SortedUnique(StringOrder.Sort(folders), StringOrder.Sort(folders2));
    StringOrder.SortedUnique(StringOrder.Sort(files), StringOrder.Sort(files2));
  }

  /** The lines of a group, one after another. */
  lemma {:induction false} LinesAppend(path: string, items: seq<string>, item: string, prefix: string)
    ensures Lines(path, items + [item], prefix) == Lines(path, items, prefix) + Line(path, item, prefix)
    decreases |items|
  {
    if items == [] {
      assert [] + [item] == [item];
    } else {
      assert (items + [item])[1..] == items[1..] + [item];
      LinesAppend(path, items[1..], item, prefix);
    }
  }

  /** One `for` loop: a line per item appended to the response. */
  method AppendLines(response: string, path: string, items: seq<string>, prefix: string) returns (r: string)
    ensures r == response + Lines(path, items, prefix)
  {
    r := response;
    var i := 0;
    while i < |items|
      invariant 0 <= i <= |items|
      invariant r == response + Lines(path, items[..i], prefix)
    {
      LinesAppend(path, items[..i], items[i], prefix);
      assert items[..i + 1] == items[..i] + [items[i]];
      r := r + Line(path, items[i], prefix);
      i := i + 1;
    }
    assert items[..i] == items;
  }

  /** The listing built as the handlers build it: the heading, then the
      sorted folders, then the sorted files. */
  method Build(path: string, folders: seq<string>, files: seq<string>, folderPrefix: string, filePrefix: string)
    returns (response: string)
    ensures response == Text(path, folders, files, folderPrefix, filePrefix)
  {
    response := "# " + path + "\n\n";
    response := AppendLines(response, path, StringOrder.Sort(folders), folderPrefix);
    response := AppendLines(response, path, StringOrder.Sort(files), filePrefix);
  }
}
