/** The path collection of get_files_path: the .png filter and the
    duplicate check, over folders that are already resolved. Resolving a
    folder (os.path.exists, os.path.abspath) and listing it (os.listdir) are
    done by the caller; each folder arrives as its absolute path, ending in
    '/', together with its directory listing. */
module FilePaths {

  /** A resolved folder: folder_path and the names os.listdir returned. */
  datatype Folder = Folder(path: string, listing: seq<string>)

  const PngSuffix: string := ".png"

  /** str.endswith */
  predicate EndsWith(s: string, suffix: string)
  {
    |suffix| <= |s| && s[|s| - |suffix|..] == suffix
  }

  predicate NoDuplicates(s: seq<string>)
  {
    forall i, j :: 0 <= i < j < |s| ==> s[i] != s[j]
  }

  /** One step of the inner loop: name is admitted when it ends with .png
      and folder + name is not in the list yet. */
  function Admit(files: seq<string>, folder: string, name: string): seq<string>
  {
    if EndsWith(name, PngSuffix) && folder + name !in files then files + [folder + name] else files
  }

  /** The list after the inner loop has gone over listing, from files. */
  function AddListing(files: seq<string>, folder: string, listing: seq<string>): seq<string>
    decreases |listing|
  {
    if listing == [] then files
    else Admit(AddListing(files, folder, listing[..|listing| - 1]), folder, listing[|listing| - 1])
  }

  /** The list after the outer loop has gone over folders, from files. */
  function AddFolders(files: seq<string>, folders: seq<Folder>): seq<string>
    decreases |folders|
  {
    if folders == [] then files
    else
      var last := folders[|folders| - 1];
      AddListing(AddFolders(files, folders[..|folders| - 1]), last.path, last.listing)
  }

  /** A path ends with .png when the name appended to the folder does. */
  lemma EndsWithAppend(folder: string, name: string, suffix: string)
    requires EndsWith(name, suffix)
    ensures EndsWith(folder + name, suffix)
  {
    var s := folder + name;
    assert s[|s| - |suffix|..] == name[|name| - |suffix|..];
  }

  /** The inner loop only appends: the entries already in the list keep
      their places. */
  lemma {:induction false} AddListingExtends(files: seq<string>, folder: string, listing: seq<string>)
    ensures |files| <= |AddListing(files, folder, listing)|
    ensures AddListing(files, folder, listing)[..|files|] == files
    decreases |listing|
  {
    if listing != [] {
      var before := AddListing(files, folder, listing[..|listing| - 1]);
      AddListingExtends(files, folder, listing[..|listing| - 1]);
      assert (before + [folder + listing[|listing| - 1]])[..|files|] == before[..|files|];
    }
  }

  /** Where each new entry comes from: the k-th appended entry is folder +
      listing[source[k]], that name ends with .png, and the positions
      source[k] strictly increase, so new entries follow the listing's order. */
  lemma {:induction false} AddListingOrigin(files: seq<string>, folder: string, listing: seq<string>)
    returns (source: seq<nat>)
    ensures |files| + |source| == |AddListing(files, folder, listing)|
    ensures forall k :: 0 <= k < |source| ==>
      source[k] < |listing| && EndsWith(listing[source[k]], PngSuffix)
      && AddListing(files, folder, listing)[|files| + k] == folder + listing[source[k]]
    ensures forall k, l :: 0 <= k < l < |source| ==> source[k] < source[l]
    decreases |listing|
  {
    if listing == [] {
      source := [];
    } else {
      var init, name := listing[..|listing| - 1], listing[|listing| - 1];
      var before := AddListing(files, folder, init);
      source := AddListingOrigin(files, folder, init);
      assert forall k :: 0 <= k < |source| ==> listing[source[k]] == init[source[k]];
      if EndsWith(name, PngSuffix) && folder + name !in before {
        source := source + [|listing| - 1];
      }
    }
  }

  /** Every entry the inner loop appends ends with .png. */
  lemma NewEntriesArePng(files: seq<string>, folder: string, listing: seq<string>)
    ensures forall k :: |files| <= k < |AddListing(files, folder, listing)| ==>
      EndsWith(AddListing(files, folder, listing)[k], PngSuffix)
  {
    var after := AddListing(files, folder, listing);
    var source := AddListingOrigin(files, folder, listing);
    forall k | |files| <= k < |after|
      ensures EndsWith(after[k], PngSuffix)
    {
      EndsWithAppend(folder, listing[source[k - |files|]], PngSuffix);
    }
  }

  /** Nothing is lost: every listed name ending with .png is in the list
      afterwards, as folder + name. */
  lemma {:induction false} AddListingComplete(files: seq<string>, folder: string, listing: seq<string>)
    ensures forall name :: name in listing && EndsWith(name, PngSuffix) ==>
      folder + name in AddListing(files, folder, listing)
    decreases |listing|
  {
    if listing != [] {
      var init := listing[..|listing| - 1];
      AddListingComplete(files, folder, init);
      forall name | name in listing && EndsWith(name, PngSuffix)
        ensures folder + name in AddListing(files, folder, listing)
      {
        if name != listing[|listing| - 1] {
          assert name in init by {
            var k :| 0 <= k < |listing| && listing[k] == name;
            assert init[k] == name;
          }
        }
      }
    }
  }

  /** The membership test keeps the list free of duplicates: if files had
      none, the list after the inner loop has none. */
  lemma {:induction false} AddListingNoDuplicates(files: seq<string>, folder: string, listing: seq<string>)
    requires NoDuplicates(files)
    ensures NoDuplicates(AddListing(files, folder, listing))
    decreases |listing|
  {
    if listing != [] {
      AddListingNoDuplicates(files, folder, listing[..|listing| - 1]);
    }
  }

  /** After the outer loop, from an empty list: no duplicates, and every
      entry ends with .png. */
  lemma {:induction false} AddFoldersWellFormed(folders: seq<Folder>)
    ensures NoDuplicates(AddFolders([], folders))
    ensures forall k :: 0 <= k < |AddFolders([], folders)| ==> EndsWith(AddFolders([], folders)[k], PngSuffix)
    decreases |folders|
  {
    if folders != [] {
      var init, last := folders[..|folders| - 1], folders[|folders| - 1];
      var before := AddFolders([], init);
      AddFoldersWellFormed(init);
      AddListingNoDuplicates(before, last.path, last.listing);
      AddListingExtends(before, last.path, last.listing);
      NewEntriesArePng(before, last.path, last.listing);
      var after := AddListing(before, last.path, last.listing);
      forall k | 0 <= k < |after|
        ensures EndsWith(after[k], PngSuffix)
      {
        if k < |before| {
          assert after[k] == after[..|before|][k];
        }
      }
    }
  }

  /** The inner loop of get_files_path: for each listed name fl, append
      folder + fl when fl ends with .png and the path is not in the list. */
  method AddPngPaths(files: seq<string>, folder: string, listing: seq<string>)
    returns (filesList: seq<string>)
    ensures filesList == AddListing(files, folder, listing)
  {
    filesList := files;
    for i := 0 to |listing|
      invariant filesList == AddListing(files, folder, listing[..i])
    {
      var fl := listing[i];
      assert listing[..i + 1][..i] == listing[..i];
      if EndsWith(fl, PngSuffix) && folder + fl !in filesList {
        filesList := filesList + [folder + fl];
      }
    }
    assert listing[..|listing|] == listing;
  }

  /** get_files_path over resolved folders: one pass of the inner loop per
      folder, in order, on one shared list. The result holds no duplicate and
      only .png paths. */
  method GetFilesPath(folders: seq<Folder>) returns (filesList: seq<string>)
    ensures filesList == AddFolders([], folders)
    ensures NoDuplicates(filesList)
    ensures forall k :: 0 <= k < |filesList| ==> EndsWith(filesList[k], PngSuffix)
  {
    filesList := [];
    for f := 0 to |folders|
      invariant filesList == AddFolders([], folders[..f])
    {
      assert folders[..f + 1][..f] == folders[..f];
      filesList := AddPngPaths(filesList, folders[f].path, folders[f].listing);
    }
    assert folders[..|folders|] == folders;
    AddFoldersWellFormed(folders);
  }
}
