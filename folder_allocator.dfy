/** `get_next_video_folder`: pick `video<N>` one past the largest number
    already used under the base directory. */
module FolderAllocator {
  import opened Decimal
  import opened Files

  /** `f.startswith('video') and f[5:].isdigit()`, with ASCII digits. */
  predicate IsVideoFolder(f: string) {
    |f| > 5 && f[..5] == "video" && AllDigits(f[5..])
  }

  /** `int(f[5:])`. */
  function FolderNumber(f: string): nat
    requires IsVideoFolder(f)
  {
    Value(f[5..])
  }

  /** `[f for f in listing if IsVideoFolder(f)]`. */
  function VideoFolders(listing: seq<string>): (r: seq<string>)
    ensures forall f :: f in r <==> f in listing && IsVideoFolder(f)
  {
    if listing == [] then []
    else (if IsVideoFolder(listing[0]) then [listing[0]] else []) + VideoFolders(listing[1..])
  }

  /** `max(int(f[5:]) for f in folders)`. */
  function MaxNumber(folders: seq<string>): (n: nat)
    requires folders != [] && forall f :: f in folders ==> IsVideoFolder(f)
    ensures forall f :: f in folders ==> FolderNumber(f) <= n
    ensures exists f :: f in folders && FolderNumber(f) == n
  {
    if |folders| == 1 then FolderNumber(folders[0])
    else
      var rest := MaxNumber(folders[1..]);
      if FolderNumber(folders[0]) >= rest then FolderNumber(folders[0]) else rest
  }

  /** The name `get_next_video_folder` joins to the base directory. */
  function NextVideoName(listing: seq<string>): string {
    var folders := VideoFolders(listing);
    if folders == [] then "video1" else "video" + Format(MaxNumber(folders) + 1, 1)
  }

  lemma NumberOfName(n: nat)
    ensures IsVideoFolder("video" + Format(n, 1))
    ensures FolderNumber("video" + Format(n, 1)) == n
  {
    assert ("video" + Format(n, 1))[..5] == "video";
    assert ("video" + Format(n, 1))[5..] == Format(n, 1);
    ValueOfFormat(n, 1);
  }

  /** The new name is a video folder numbered above every existing one, and
      its number is 1 or one past some existing number. */
  lemma NextVideoNameIsNext(listing: seq<string>)
    ensures IsVideoFolder(NextVideoName(listing))
    ensures NextVideoName(listing) == "video" + Format(FolderNumber(NextVideoName(listing)), 1)
    ensures forall f :: f in listing && IsVideoFolder(f) ==>
      FolderNumber(f) < FolderNumber(NextVideoName(listing))
    ensures FolderNumber(NextVideoName(listing)) == 1 ||
      exists f :: f in listing && IsVideoFolder(f) && FolderNumber(f) + 1 == FolderNumber(NextVideoName(listing))
  {
    var folders := VideoFolders(listing);
    if folders == [] {
      assert Format(1, 1) == "1";
      NumberOfName(1);
      assert "video1" == "video" + Format(1, 1);
    } else {
      NumberOfName(MaxNumber(folders) + 1);
    }
  }

  /** The new name is never one already listed. */
  lemma NextVideoNameFresh(listing: seq<string>)
    ensures NextVideoName(listing) !in listing
  {
    NextVideoNameIsNext(listing);
  }

  /** The new name depends only on which names are listed, not on their order. */
  lemma NextVideoNameOrderFree(l1: seq<string>, l2: seq<string>)
    requires forall x :: x in l1 <==> x in l2
    ensures NextVideoName(l1) == NextVideoName(l2)
  {
    NextVideoNameIsNext(l1);
    NextVideoNameIsNext(l2);
  }

  /** `video1, video3, video7` gives `video8`. */
  lemma NextAfterSeven()
    ensures NextVideoName(["video1", "video3", "video7"]) == "video8"
  {
    var l := ["video1", "video3", "video7"];
    assert IsVideoFolder("video1") && FolderNumber("video1") == 1 by {
      assert "video1"[5..] == "1";
    }
    assert IsVideoFolder("video3") && FolderNumber("video3") == 3 by {
      assert "video3"[5..] == "3";
    }
    assert IsVideoFolder("video7") && FolderNumber("video7") == 7 by {
      assert "video7"[5..] == "7";
    }
    assert VideoFolders(l) == l by {
      assert l[1..] == ["video3", "video7"];
      assert l[1..][1..] == ["video7"];
    }
    assert MaxNumber(l) == 7 by {
      assert l[1..] == ["video3", "video7"];
      assert l[1..][1..] == ["video7"];
    }
    assert Format(8, 1) == "8";
  }

  /** An empty listing gives `video1`. */
  lemma NextInEmpty()
    ensures NextVideoName([]) == "video1"
  {
  }

  /** `video02` is a video folder numbered 2: leading zeros are read as a number. */
  lemma LeadingZeroFolder()
    ensures IsVideoFolder("video02") && FolderNumber("video02") == 2
  {
    assert "video02"[..5] == "video";
    assert "video02"[5..] == "02";
    assert "02"[..1] == "0" && "0"[..0] == "";
    assert Value("0") == 0;
    assert Value("02") == 2;
  }

  /** Of these names only `video02` is a video folder. */
  lemma OnlyLeadingZeroMatches()
    ensures VideoFolders(["video", "video2a", "notes.txt", "video02"]) == ["video02"]
  {
    var k := ["video", "video2a", "notes.txt", "video02"];
    LeadingZeroFolder();
    assert !IsVideoFolder("video");
    assert !IsVideoFolder("video2a") by { assert "video2a"[5..][1] == 'a'; }
    assert !IsVideoFolder("notes.txt") by { assert "notes.txt"[..5][0] == 'n'; }
    assert k[1..] == ["video2a", "notes.txt", "video02"];
    assert k[1..][1..] == ["notes.txt", "video02"];
    assert k[1..][1..][1..] == ["video02"];
    assert VideoFolders(["video02"]) == ["video02"];
  }

  /** Names that do not match are ignored, and leading zeros are read as a number. */
  lemma NextIgnoresOthers()
    ensures NextVideoName(["video", "video2a", "notes.txt", "video02"]) == "video3"
  {
    OnlyLeadingZeroMatches();
    LeadingZeroFolder();
    assert MaxNumber(["video02"]) == 2;
    assert Format(3, 1) == "3";
  }

  /** `os.listdir` in some order: any listing of the names will do. */
  ghost function ListingOf(names: set<string>): (r: seq<string>)
    ensures forall x :: x in r <==> x in names
    decreases |names|
  {
    if names == {} then []
    else var x :| x in names; [x] + ListingOf(names - {x})
  }

  /** The folder `get_next_video_folder(base)` returns once `base` exists. */
  ghost function NextFolder(m: Tree, base: Path): Path {
    base + [NextVideoName(ListingOf(Children(m, base)))]
  }

  /** Nothing exists at or below the folder chosen: the workspace is new. */
  lemma NextFolderFresh(m: Tree, base: Path, p: Path)
    requires p in m
    ensures !Under(p, NextFolder(m, base))
  {
    var listing := ListingOf(Children(m, base));
    var folder := NextFolder(m, base);
    if Under(p, folder) {
      assert p[..|base|] == folder[..|base|] == base;
      assert p[|base|] == folder[|base|];
      assert p[|base|] in Children(m, base);
      NextVideoNameFresh(listing);
    }
  }

  /** `get_next_video_folder(base)`: create `base`, list it and name the next folder. */
  method GetNextVideoFolder(fs: FileSystem, base: Path) returns (folder: Path)
    modifies fs
    ensures fs.entries == AfterMakeDirs(old(fs.entries), base)
    ensures folder == NextFolder(fs.entries, base)
  {
    fs.MakeDirs(base);
    var names := fs.ListDir(base);
    NextVideoNameOrderFree(names, ListingOf(Children(fs.entries, base)));
    folder := base + [NextVideoName(names)];
  }
}
