// The mount tree of src/filesys/mount.c.  Children are structs stored by value in their
// parent's array and searched first to last; what makes the first match the longest one is the
// order in which mount_something has put them there.

module MountTree {
  datatype Mount = Mount(devName: string, absolutePath: string, relativePath: string, subtree: seq<Mount>)

  // Strings stand for C strings; a suffix stands for a pointer into one.

  // `key` is `path` or one of its ancestors.
  predicate Covers(key: string, path: string) {
    key == path || key + "/" <= path
  }

  // What is left of a path below a key that covers it.
  function Rest(key: string, path: string): string
    requires Covers(key, path)
  {
    if key == path then "" else path[|key| + 1..]
  }

  // Places in the tree, as the child numbers on the way down.
  predicate ValidPlace(m: Mount, place: seq<nat>)
    decreases |place|
  {
    place == [] || (place[0] < |m.subtree| && ValidPlace(m.subtree[place[0]], place[1..]))
  }

  function At(m: Mount, place: seq<nat>): Mount
    requires ValidPlace(m, place)
    decreases |place|
  {
    if place == [] then m else At(m.subtree[place[0]], place[1..])
  }

  // The path from m down to a place below it.
  function Key(m: Mount, place: seq<nat>): string
    requires ValidPlace(m, place) && place != []
    decreases |place|
  {
    var child := m.subtree[place[0]];
    if |place| == 1 then child.relativePath else child.relativePath + "/" + Key(child, place[1..])
  }

  // The first child from number i on that covers the name; |m.subtree| when there is none.
  function FirstMatch(m: Mount, name: string, i: nat): (j: nat)
    requires i <= |m.subtree|
    ensures i <= j <= |m.subtree|
    ensures forall k | i <= k < j :: !Covers(m.subtree[k].relativePath, name)
    ensures j < |m.subtree| ==> Covers(m.subtree[j].relativePath, name)
    decreases |m.subtree| - i
  {
    if i == |m.subtree| || Covers(m.subtree[i].relativePath, name) then i else FirstMatch(m, name, i + 1)
  }

  // The search of etsi_kohta below m: where it ends and the rest of the name.
  function Find(m: Mount, name: string): (seq<nat>, string)
    decreases m
  {
    var i := FirstMatch(m, name, 0);
    if i == |m.subtree| then ([], name)
    else
      var (place, rest) := Find(m.subtree[i], Rest(m.subtree[i].relativePath, name));
      ([i] + place, rest)
  }

  // No place under a later child is covered by an earlier one.
  ghost predicate Ordered(m: Mount)
    decreases m
  {
    && (forall i | 0 <= i < |m.subtree| :: m.subtree[i].relativePath != "" && Ordered(m.subtree[i]))
    && forall i: nat, place: seq<nat> | place != [] && ValidPlace(m, place) && i < place[0] ::
         !Covers(m.subtree[i].relativePath, Key(m, place))
  }

  // The mount at a place is in charge of a name below m.
  predicate InCharge(m: Mount, place: seq<nat>, name: string)
    requires ValidPlace(m, place)
  {
    place == [] || Covers(Key(m, place), name)
  }

  function KeyLength(m: Mount, place: seq<nat>): nat
    requires ValidPlace(m, place)
  {
    if place == [] then 0 else |Key(m, place)|
  }

  // ---- paths ----

  lemma CoversParts(a: string, b: string, name: string)
    ensures Covers(a + "/" + b, name) <==> Covers(a, name) && name != a && Covers(b, Rest(a, name))
    ensures Covers(a + "/" + b, name) ==> Rest(a + "/" + b, name) == Rest(b, Rest(a, name))
  {
    var key := a + "/" + b;
    assert key == (a + "/") + b && key + "/" == (a + "/") + (b + "/");
    if Covers(a, name) && name != a {
      assert name == (a + "/") + name[|a| + 1..];
    }
    if Covers(key, name) {
      assert name == key || name == key + "/" + name[|key| + 1..];
      assert name[..|a| + 1] == a + "/";
    }
  }

  // Of two keys that cover the same path the shorter covers the longer.
  lemma CoversChain(a: string, b: string, name: string)
    requires Covers(a, name) && Covers(b, name) && |a| <= |b|
    ensures Covers(a, b)
  {
    assert b == name[..|b|] && a == name[..|a|];
    if a != b {
      assert |a| < |b|;
      assert b[|a|] == name[|a|] == '/';
      assert b[..|a| + 1] == a + "/";
    }
  }

  // ---- the search ----

  lemma {:induction false} KeyNotEmpty(m: Mount, place: seq<nat>)
    requires Ordered(m) && ValidPlace(m, place) && place != []
    ensures Key(m, place) != ""
  {
  }

  lemma NothingBelowEmpty(m: Mount)
    requires Ordered(m)
    ensures Find(m, "") == ([], "")
  {
  }

  // etsi_kohta ends at a mount in charge of the name, with exactly the remaining text.
  lemma {:induction false} FindIsInCharge(m: Mount, name: string)
    requires Ordered(m)
    ensures ValidPlace(m, Find(m, name).0)
    ensures InCharge(m, Find(m, name).0, name)
    ensures Find(m, name).1 == if Find(m, name).0 == [] then name else Rest(Key(m, Find(m, name).0), name)
    decreases m
  {
    var i := FirstMatch(m, name, 0);
    if i < |m.subtree| {
      var child := m.subtree[i];
      var rest := Rest(child.relativePath, name);
      FindIsInCharge(child, rest);
      var place := Find(child, rest).0;
      assert Find(m, name).0 == [i] + place && ([i] + place)[1..] == place;
      if rest == "" {
        NothingBelowEmpty(child);
        assert Key(m, [i]) == child.relativePath;
      } else if place == [] {
        assert Key(m, [i]) == child.relativePath;
      } else {
        CoversParts(child.relativePath, Key(child, place), name);
        assert Key(m, [i] + place) == child.relativePath + "/" + Key(child, place);
      }
    }
  }

  // Longest prefix: no mount in charge of the name has a longer path than the one found.
  lemma {:induction false} FindIsLongest(m: Mount, name: string, place: seq<nat>)
    requires Ordered(m) && ValidPlace(m, place) && InCharge(m, place, name)
    ensures ValidPlace(m, Find(m, name).0)
    ensures KeyLength(m, place) <= KeyLength(m, Find(m, name).0)
    decreases m
  {
    FindIsInCharge(m, name);
    if place != [] {
      var j, q := place[0], place[1..];
      var child := m.subtree[j];
      if q != [] {
        CoversParts(child.relativePath, Key(child, q), name);
      }
      var i := FirstMatch(m, name, 0);
      var found := Find(m, name).0;
      assert found[0] == i && i <= j;
      if i == j {
        FindIsLongest(child, Rest(child.relativePath, name), q);
        assert found[1..] == Find(child, Rest(child.relativePath, name)).0;
      } else {
        assert !Covers(m.subtree[i].relativePath, Key(m, place));
        if |m.subtree[i].relativePath| <= |Key(m, place)| {
          CoversChain(m.subtree[i].relativePath, Key(m, place), name);
        }
      }
    }
  }

  // Every mount is found by its own path; so no two have the same one.
  lemma {:induction false} FoundByOwnKey(m: Mount, place: seq<nat>)
    requires Ordered(m) && ValidPlace(m, place) && place != []
    ensures Find(m, Key(m, place)) == (place, "")
    decreases m
  {
    var name := Key(m, place);
    var j, q := place[0], place[1..];
    var child := m.subtree[j];
    var i := FirstMatch(m, name, 0);
    assert Covers(child.relativePath, name) by {
      if q != [] {
        CoversParts(child.relativePath, Key(child, q), name);
      }
    }
    assert i == j;
    assert [j] + q == place;
    if q == [] {
      NothingBelowEmpty(child);
    } else {
      assert Rest(child.relativePath, name) == Key(child, q) by {
        CoversParts(child.relativePath, Key(child, q), name);
      }
      FoundByOwnKey(child, q);
    }
  }

  // ---- mounting ----

  // A new last child for the mount at a place.
  function Insert(m: Mount, place: seq<nat>, leaf: Mount): Mount
    requires ValidPlace(m, place)
    decreases |place|
  {
    if place == [] then m.(subtree := m.subtree + [leaf])
    else m.(subtree := m.subtree[place[0] := Insert(m.subtree[place[0]], place[1..], leaf)])
  }

  // The places of the tree after an insertion: the old ones, with their old keys, and one more.
  lemma {:induction false} PlacesAfterInsert(m: Mount, place: seq<nat>, leaf: Mount, q: seq<nat>)
    requires ValidPlace(m, place) && leaf.subtree == []
    ensures var at := place + [|At(m, place).subtree|];
      && (ValidPlace(Insert(m, place, leaf), q) <==> ValidPlace(m, q) || q == at)
      && !ValidPlace(m, at)
      && (q != [] && ValidPlace(m, q) ==> Key(Insert(m, place, leaf), q) == Key(m, q))
      && (q == at ==>
           Key(Insert(m, place, leaf), q) ==
             if place == [] then leaf.relativePath else Key(m, place) + "/" + leaf.relativePath)
    decreases |place|
  {
    if place == [] {
      if q != [] && q[0] == |m.subtree| {
        assert q == [q[0]] + q[1..];
      }
    } else {
      var i := place[0];
      var at := place + [|At(m, place).subtree|];
      assert at[1..] == place[1..] + [|At(m, place).subtree|];
      PlacesAfterInsert(m.subtree[i], place[1..], leaf, if q == [] then [] else q[1..]);
      PlacesAfterInsert(m.subtree[i], place[1..], leaf, at[1..]);
      if q != [] && q[0] == i && q[1..] == at[1..] {
        assert q == [i] + q[1..] && at == [i] + at[1..];
      }
    }
  }

  lemma WholePath(key: string, path: string)
    requires Covers(key, path) && Rest(key, path) != ""
    ensures path == key + "/" + Rest(key, path)
  {
  }

  // The place mount_something picks has the mount point as its path.
  lemma NewKey(m: Mount, name: string, leaf: Mount)
    requires Ordered(m) && Find(m, name).1 != "" && leaf.relativePath == Find(m, name).1 && leaf.subtree == []
    ensures var place := Find(m, name).0;
      && ValidPlace(m, place)
      && var at := place + [|At(m, place).subtree|];
      && ValidPlace(Insert(m, place, leaf), at) && Key(Insert(m, place, leaf), at) == name
  {
    FindIsInCharge(m, name);
    hide Find, Ordered, Insert, Covers, Rest, Key, ValidPlace;
    var place := Find(m, name).0;
    PlacesAfterInsert(m, place, leaf, place + [|At(m, place).subtree|]);
    if place != [] {
      WholePath(Key(m, place), name);
    }
  }

  // Mounting below what the search finds keeps the order that makes the search right.
  lemma {:induction false} InsertKeepsOrdered(m: Mount, name: string, leaf: Mount)
    requires Ordered(m) && Find(m, name).1 != "" && leaf.relativePath == Find(m, name).1 && leaf.subtree == []
    ensures ValidPlace(m, Find(m, name).0)
    ensures Ordered(Insert(m, Find(m, name).0, leaf))
    decreases m
  {
    NewKey(m, name, leaf);
    var place := Find(m, name).0;
    var first := FirstMatch(m, name, 0);
    var after := Insert(m, place, leaf);
    var at := place + [|At(m, place).subtree|];
    if place != [] {
      var child := m.subtree[first];
      assert place == [first] + Find(child, Rest(child.relativePath, name)).0;
      assert place[1..] == Find(child, Rest(child.relativePath, name)).0;
      InsertKeepsOrdered(child, Rest(child.relativePath, name), leaf);
    }
    forall i: nat, q: seq<nat> | q != [] && ValidPlace(after, q) && i < q[0]
      ensures !Covers(after.subtree[i].relativePath, Key(after, q))
    {
      PlacesAfterInsert(m, place, leaf, q);
    }
  }

  // ---- absolute paths ----

  lemma {:induction false} MountsAfterInsert(m: Mount, place: seq<nat>, leaf: Mount, q: seq<nat>)
    requires ValidPlace(m, place) && ValidPlace(Insert(m, place, leaf), q) && leaf.subtree == []
    ensures ValidPlace(m, q) ==>
      && At(Insert(m, place, leaf), q).absolutePath == At(m, q).absolutePath
      && At(Insert(m, place, leaf), q).devName == At(m, q).devName
    ensures q == place + [|At(m, place).subtree|] ==> At(Insert(m, place, leaf), q) == leaf
    decreases |place|
  {
    if place != [] && q != [] && q[0] == place[0] {
      MountsAfterInsert(m.subtree[place[0]], place[1..], leaf, q[1..]);
      var at := place + [|At(m, place).subtree|];
      assert at[1..] == place[1..] + [|At(m, place).subtree|];
    }
  }

  // Every mount carries its full path.
  ghost predicate PathsRight(root: Mount) {
    forall place: seq<nat> | place != [] && ValidPlace(root, place) ::
      At(root, place).absolutePath == "/" + Key(root, place)
  }

  lemma InsertKeepsPaths(root: Mount, name: string, leaf: Mount)
    requires Ordered(root) && PathsRight(root)
    requires Find(root, name).1 != "" && leaf.relativePath == Find(root, name).1 && leaf.subtree == []
    requires leaf.absolutePath == "/" + name
    ensures ValidPlace(root, Find(root, name).0)
    ensures PathsRight(Insert(root, Find(root, name).0, leaf))
  {
    NewKey(root, name, leaf);
    var place := Find(root, name).0;
    forall q: seq<nat> | q != [] && ValidPlace(Insert(root, place, leaf), q)
      ensures At(Insert(root, place, leaf), q).absolutePath == "/" + Key(Insert(root, place, leaf), q)
    {
      PlacesAfterInsert(root, place, leaf, q);
      MountsAfterInsert(root, place, leaf, q);
    }
  }

  lemma CoversAbsolute(key: string, name: string)
    ensures Covers("/" + key, "/" + name) <==> Covers(key, name)
    ensures Covers(key, name) ==> Rest("/" + key, "/" + name) == Rest(key, name)
  {
    assert ("/" + key) + "/" == "/" + (key + "/");
    if ("/" + key) + "/" <= "/" + name {
      assert ("/" + (key + "/"))[1..] <= ("/" + name)[1..];
    }
    if "/" + key == "/" + name {
      assert ("/" + key)[1..] == ("/" + name)[1..];
    }
  }

  lemma LongestCovering(root: Mount, filename: string)
    requires Ordered(root) && PathsRight(root) && filename != "" && filename[0] == '/'
    ensures var (place, rest) := Find(root, filename[1..]);
      && ValidPlace(root, place)
      && (place == [] ==> rest == filename[1..])
      && (place != [] ==>
           && Covers(At(root, place).absolutePath, filename)
           && rest == Rest(At(root, place).absolutePath, filename))
      && forall p: seq<nat> | p != [] && ValidPlace(root, p) && Covers(At(root, p).absolutePath, filename) ::
           place != [] && |At(root, p).absolutePath| <= |At(root, place).absolutePath|
  {
    var name := filename[1..];
    assert filename == "/" + name;
    FindIsInCharge(root, name);
    var place := Find(root, name).0;
    if place != [] {
      CoversAbsolute(Key(root, place), name);
    }
    forall p: seq<nat> | p != [] && ValidPlace(root, p) && Covers(At(root, p).absolutePath, filename)
      ensures place != [] && |At(root, p).absolutePath| <= |At(root, place).absolutePath|
    {
      CoversAbsolute(Key(root, p), name);
      FindIsLongest(root, name, p);
      KeyNotEmpty(root, p);
    }
  }

  lemma CoversPlainly(key: string, path: string)
    ensures Covers(key, path) <==> key == path || key + "/" <= path
    ensures Covers(key, path) ==> (path == key && Rest(key, path) == "") || path == key + "/" + Rest(key, path)
  {
  }

  // Whatever is asked for, etsi_kohta answers with the mount that has the longest path covering
  // it (the root when no other does) and with exactly the text below that mount.
  lemma LongestPrefix(root: Mount, filename: string)
    requires Ordered(root) && PathsRight(root) && filename != "" && filename[0] == '/'
    ensures var (place, rest) := Find(root, filename[1..]);
      && ValidPlace(root, place)
      && (place == [] ==> filename == "/" + rest)
      && (place != [] ==>
           || (filename == At(root, place).absolutePath && rest == "")
           || filename == At(root, place).absolutePath + "/" + rest)
      && forall p: seq<nat> | p != [] && ValidPlace(root, p) ::
           At(root, p).absolutePath == filename || At(root, p).absolutePath + "/" <= filename ==>
             place != [] && |At(root, p).absolutePath| <= |At(root, place).absolutePath|
  {
    hide *;
    LongestCovering(root, filename);
    var (place, rest) := Find(root, filename[1..]);
    if place == [] {
      assert filename == "/" + filename[1..];
    } else {
      CoversPlainly(At(root, place).absolutePath, filename);
    }
    forall p: seq<nat> | p != [] && ValidPlace(root, p)
      ensures At(root, p).absolutePath == filename || At(root, p).absolutePath + "/" <= filename ==>
                place != [] && |At(root, p).absolutePath| <= |At(root, place).absolutePath|
    {
      CoversPlainly(At(root, p).absolutePath, filename);
    }
  }

  datatype Request = Request(device: string, mountpoint: string)

  predicate GoodPoint(mountpoint: string) {
    mountpoint == "" || mountpoint[|mountpoint| - 1] != '/'
  }

  // A request for an absolute mount point that does not end in a slash.
  predicate Asks(r: Request) {
    r.mountpoint != "" && r.mountpoint[0] == '/' && GoodPoint(r.mountpoint)
  }

  // mount_something with a device that can be mounted: nothing happens unless the search
  // leaves some text for the new mount.
  function MountOne(root: Mount, r: Request): Mount
    requires Ordered(root)
  {
    if !Asks(r) then root
    else
      var (place, rest) := Find(root, r.mountpoint[1..]);
      if rest == "" then root
      else
        FindIsInCharge(root, r.mountpoint[1..]);
        Insert(root, place, Mount(r.device, r.mountpoint, rest, []))
  }

  lemma MountOneKeeps(root: Mount, r: Request)
    requires Ordered(root) && PathsRight(root)
    ensures Ordered(MountOne(root, r)) && PathsRight(MountOne(root, r))
  {
    if Asks(r) && Find(root, r.mountpoint[1..]).1 != "" {
      var leaf := Mount(r.device, r.mountpoint, Find(root, r.mountpoint[1..]).1, []);
      assert r.mountpoint == "/" + r.mountpoint[1..];
      InsertKeepsOrdered(root, r.mountpoint[1..], leaf);
      InsertKeepsPaths(root, r.mountpoint[1..], leaf);
    }
  }

  // A new mount is found at once, by its own path, and the others stay where they were.
  lemma MountOneFound(root: Mount, r: Request)
    requires Ordered(root) && PathsRight(root)
    requires Asks(r) && Find(root, r.mountpoint[1..]).1 != ""
    ensures var after := MountOne(root, r);
      var (place, rest) := Find(after, r.mountpoint[1..]);
      && rest == "" && ValidPlace(after, place)
      && At(after, place) == Mount(r.device, r.mountpoint, Find(root, r.mountpoint[1..]).1, [])
      && forall p: seq<nat> | p != place ::
           && (ValidPlace(after, p) <==> ValidPlace(root, p))
           && (ValidPlace(root, p) ==>
                At(after, p).absolutePath == At(root, p).absolutePath && At(after, p).devName == At(root, p).devName)
  {
    var name := r.mountpoint[1..];
    FindIsInCharge(root, name);
    var (parent, text) := Find(root, name);
    var leaf := Mount(r.device, r.mountpoint, text, []);
    var at := parent + [|At(root, parent).subtree|];
    NewKey(root, name, leaf);
    MountsAfterInsert(root, parent, leaf, at);
    MountOneKeeps(root, r);
    FoundByOwnKey(MountOne(root, r), at);
    forall p: seq<nat> | p != at
      ensures ValidPlace(MountOne(root, r), p) <==> ValidPlace(root, p)
      ensures ValidPlace(root, p) ==>
        && At(MountOne(root, r), p).absolutePath == At(root, p).absolutePath
        && At(MountOne(root, r), p).devName == At(root, p).devName
    {
      PlacesAfterInsert(root, parent, leaf, p);
      if ValidPlace(root, p) {
        MountsAfterInsert(root, parent, leaf, p);
      }
    }
  }

  // Mount p of the tree is the one at this path.
  ghost predicate MountedAt(root: Mount, p: seq<nat>, path: string) {
    p != [] && ValidPlace(root, p) && At(root, p).absolutePath == path
  }

  // A mount point is in use exactly when the search consumes all of it.
  lemma UsedPath(root: Mount, mountpoint: string)
    requires Ordered(root) && PathsRight(root) && mountpoint != "" && mountpoint[0] == '/'
    requires mountpoint[|mountpoint| - 1] != '/'
    ensures Find(root, mountpoint[1..]).1 == "" <==>
      exists p: seq<nat> :: MountedAt(root, p, mountpoint)
    ensures var rest := Find(root, mountpoint[1..]).1; rest != "" ==> rest[|rest| - 1] != '/'
  {
    var name := mountpoint[1..];
    assert mountpoint == "/" + name;
    FindIsInCharge(root, name);
    var (place, rest) := Find(root, name);
    if rest == "" {
      assert place != [];
      var key := Key(root, place);
      assert Covers(key, name) && |name| <= |key| + 1;
      assert key + "/" <= name ==> name == key + "/";
      assert name == key;
      assert MountedAt(root, place, mountpoint);
    }
    forall p: seq<nat> | MountedAt(root, p, mountpoint) ensures rest == "" {
      assert "/" + Key(root, p) == "/" + name;
      assert Key(root, p) == ("/" + Key(root, p))[1..] == name;
      FoundByOwnKey(root, p);
    }
  }

  function MountAll(root: Mount, requests: seq<Request>): (after: Mount)
    requires Ordered(root) && PathsRight(root)
    ensures Ordered(after) && PathsRight(after)
    decreases |requests|
  {
    if requests == [] then root
    else
      MountOneKeeps(root, requests[0]);
      MountAll(MountOne(root, requests[0]), requests[1..])
  }

  lemma {:induction false} NotAPlace(m: Mount, place: seq<nat>)
    requires ValidPlace(m, place)
    ensures !ValidPlace(m, place + [|At(m, place).subtree|])
    decreases |place|
  {
    if place != [] {
      NotAPlace(m.subtree[place[0]], place[1..]);
      assert (place + [|At(m, place).subtree|])[1..] == place[1..] + [|At(m, place).subtree|];
    }
  }

  lemma NewPlaceIsNew(root: Mount, r: Request)
    requires Ordered(root) && PathsRight(root)
    requires Asks(r) && Find(root, r.mountpoint[1..]).1 != ""
    ensures !ValidPlace(root, Find(MountOne(root, r), r.mountpoint[1..]).0)
    ensures Find(MountOne(root, r), r.mountpoint[1..]).0 != []
  {
    var name := r.mountpoint[1..];
    FindIsInCharge(root, name);
    var (parent, text) := Find(root, name);
    var leaf := Mount(r.device, r.mountpoint, text, []);
    var at := parent + [|At(root, parent).subtree|];
    NewKey(root, name, leaf);
    MountOneKeeps(root, r);
    FoundByOwnKey(MountOne(root, r), at);
    NotAPlace(root, parent);
  }

  lemma {:induction false} MountStays(root: Mount, requests: seq<Request>, place: seq<nat>)
    requires Ordered(root) && PathsRight(root) && place != [] && ValidPlace(root, place)
    ensures var after := MountAll(root, requests);
      && ValidPlace(after, place)
      && At(after, place).absolutePath == At(root, place).absolutePath
      && At(after, place).devName == At(root, place).devName
    decreases |requests|
  {
    if requests == [] {
    } else {
      var r := requests[0];
      MountOneKeeps(root, r);
      if Asks(r) && Find(root, r.mountpoint[1..]).1 != "" {
        NewPlaceIsNew(root, r);
        MountOneFound(root, r);
      }
      MountStays(MountOne(root, r), requests[1..], place);
    }
  }

  lemma MountOneAsked(root: Mount, r: Request) returns (place: seq<nat>)
    requires Ordered(root) && PathsRight(root) && Asks(r)
    ensures MountedAt(MountOne(root, r), place, r.mountpoint)
    ensures MountedAt(root, place, r.mountpoint) || At(MountOne(root, r), place).devName == r.device
  {
    UsedPath(root, r.mountpoint);
    if Find(root, r.mountpoint[1..]).1 == "" {
      place :| MountedAt(root, place, r.mountpoint);
    } else {
      hide Find, MountOne, PathsRight, Ordered;
      NewPlaceIsNew(root, r);
      MountOneFound(root, r);
      place := Find(MountOne(root, r), r.mountpoint[1..]).0;
    }
  }

  lemma MountOneElsewhere(root: Mount, r: Request, path: string, p: seq<nat>)
    requires Ordered(root) && PathsRight(root) && r.mountpoint != path && MountedAt(MountOne(root, r), p, path)
    ensures MountedAt(root, p, path)
  {
    if Asks(r) && Find(root, r.mountpoint[1..]).1 != "" {
      MountOneFound(root, r);
    }
  }

  // Whatever is asked for in a run is there at its end, on the device it was asked for first; a
  // mount that was there before keeps its device.
  lemma {:induction false} FirstRequestWins(root: Mount, requests: seq<Request>, k: nat) returns (place: seq<nat>)
    requires Ordered(root) && PathsRight(root) && k < |requests|
    requires var point := requests[k].mountpoint; point != "" && point[0] == '/' && point[|point| - 1] != '/'
    requires forall j | 0 <= j < k :: requests[j].mountpoint != requests[k].mountpoint
    ensures MountedAt(MountAll(root, requests), place, requests[k].mountpoint)
    ensures (forall p: seq<nat> :: !MountedAt(root, p, requests[k].mountpoint)) ==>
      At(MountAll(root, requests), place).devName == requests[k].device
    decreases |requests|
  {
    assert Asks(requests[k]);
    hide Ordered, PathsRight, MountOne, Asks;
    var after, path := MountOne(root, requests[0]), requests[k].mountpoint;
    MountOneKeeps(root, requests[0]);
    if k == 0 {
      place := MountOneAsked(root, requests[0]);
      MountStays(after, requests[1..], place);
    } else {
      place := FirstRequestWins(after, requests[1..], k - 1);
      forall p: seq<nat> | MountedAt(after, p, path) ensures MountedAt(root, p, path) {
        MountOneElsewhere(root, requests[0], path, p);
      }
    }
  }

  // The first request of a run for the same mount point.
  lemma FirstOfItsKind(requests: seq<Request>, k: nat) returns (j: nat)
    requires k < |requests|
    ensures j <= k && requests[j].mountpoint == requests[k].mountpoint
    ensures forall i | 0 <= i < j :: requests[i].mountpoint != requests[k].mountpoint
  {
    j := 0;
    while requests[j].mountpoint != requests[k].mountpoint
      invariant j <= k
      invariant forall i | 0 <= i < j :: requests[i].mountpoint != requests[k].mountpoint
      decreases k - j
    {
      j := j + 1;
    }
  }

  lemma FoundByOwnPath(root: Mount, p: seq<nat>)
    requires Ordered(root) && PathsRight(root) && p != [] && ValidPlace(root, p)
    ensures At(root, p).absolutePath != "" && Find(root, At(root, p).absolutePath[1..]).0 == p
  {
    assert ("/" + Key(root, p))[1..] == Key(root, p);
    FoundByOwnKey(root, p);
  }

  lemma MountedAtEnd(root: Mount, requests: seq<Request>, k: nat) returns (p: seq<nat>)
    requires Ordered(root) && PathsRight(root) && k < |requests|
    requires var point := requests[k].mountpoint; point != "" && point[0] == '/' && point[|point| - 1] != '/'
    ensures MountedAt(MountAll(root, requests), p, requests[k].mountpoint)
    ensures var after := MountAll(root, requests);
      p != [] && ValidPlace(after, p) && At(after, p).absolutePath == requests[k].mountpoint
  {
    hide Ordered, PathsRight, MountAll;
    var j := FirstOfItsKind(requests, k);
    p := FirstRequestWins(root, requests, j);
  }

  // In every run, whatever the order of the mount points: each of them is mounted at the end and
  // found by its own path, and the answer to any path is the longest one that covers it.
  lemma EveryRun(root: Mount, requests: seq<Request>, filename: string)
    requires Ordered(root) && PathsRight(root) && filename != "" && filename[0] == '/'
    ensures var after := MountAll(root, requests);
      var (place, rest) := Find(after, filename[1..]);
      && ValidPlace(after, place)
      && (place == [] ==> filename == "/" + rest)
      && (place != [] ==>
           || (filename == At(after, place).absolutePath && rest == "")
           || filename == At(after, place).absolutePath + "/" + rest)
      && (forall p: seq<nat> | p != [] && ValidPlace(after, p) ::
           && (At(after, p).absolutePath == filename ==> p == place)
           && (At(after, p).absolutePath == filename || At(after, p).absolutePath + "/" <= filename ==>
                place != [] && |At(after, p).absolutePath| <= |At(after, place).absolutePath|))
    ensures forall r | r in requests && r.mountpoint != "" && r.mountpoint[0] == '/' ::
              r.mountpoint[|r.mountpoint| - 1] != '/' ==>
                exists p: seq<nat> :: MountedAt(MountAll(root, requests), p, r.mountpoint)
  {
    hide *;
    var after := MountAll(root, requests);
    LongestPrefix(after, filename);
    forall p: seq<nat> | p != [] && ValidPlace(after, p) && At(after, p).absolutePath == filename
      ensures p == Find(after, filename[1..]).0
    {
      FoundByOwnPath(after, p);
    }
    forall r | r in requests && r.mountpoint != "" && r.mountpoint[0] == '/'
      ensures r.mountpoint[|r.mountpoint| - 1] != '/' ==>
                exists p: seq<nat> :: MountedAt(after, p, r.mountpoint)
    {
      if r.mountpoint[|r.mountpoint| - 1] != '/' {
        var k :| 0 <= k < |requests| && requests[k] == r;
        var p := MountedAtEnd(root, requests, k);
      }
    }
  }

  datatype MountResult = Mounted | TotalFailure | AlreadyMounted | DeviceError | FilesysError | Unterminated

  // strrmsame: how much of the two strings agrees.
  method StrRmSame(s1: string, s2: string) returns (k: nat)
    ensures k <= |s1| && k <= |s2| && s1[..k] == s2[..k]
    ensures k == |s1| || k == |s2| || s1[k] != s2[k]
  {
    k := 0;
    while k < |s1| && k < |s2| && s1[k] == s2[k]
      invariant k <= |s1| && k <= |s2| && s1[..k] == s2[..k]
    {
      k := k + 1;
    }
  }

  lemma SameUpTo(rel: string, name: string, k: nat)
    requires k <= |name| && k <= |rel| && name[..k] == rel[..k]
    requires k == |name| || k == |rel| || name[k] != rel[k]
    ensures Covers(rel, name) <==> k == |rel| && (k == |name| || name[k] == '/')
    ensures Covers(rel, name) ==> Rest(rel, name) == if k == |name| then "" else name[k + 1..]
  {
    if k == |rel| {
      assert name[..k] == rel;
      if k < |name| {
        assert name[..k + 1] == rel + [name[k]];
      }
    }
    if rel + "/" <= name {
      assert name[..|rel|] == rel && name[|rel|] == '/';
    }
  }

  // The search from m for the whole name has come to mnt with this much of it left.
  predicate SearchAt(m: Mount, whole: string, place: seq<nat>, mnt: Mount, name: string) {
    Find(m, whole) == (place + Find(mnt, name).0, Find(mnt, name).1)
  }

  lemma {:induction false} Deeper(m: Mount, place: seq<nat>, i: nat)
    requires ValidPlace(m, place) && i < |At(m, place).subtree|
    ensures ValidPlace(m, place + [i]) && At(m, place + [i]) == At(m, place).subtree[i]
    decreases |place|
  {
    if place != [] {
      Deeper(m.subtree[place[0]], place[1..], i);
      assert (place + [i])[1..] == place[1..] + [i];
    }
  }

  lemma Descend(m: Mount, whole: string, place: seq<nat>, mnt: Mount, name: string, i: nat)
    requires ValidPlace(m, place) && mnt == At(m, place) && SearchAt(m, whole, place, mnt, name)
    requires i == FirstMatch(mnt, name, 0) < |mnt.subtree|
    ensures ValidPlace(m, place + [i]) && At(m, place + [i]) == mnt.subtree[i]
    ensures SearchAt(m, whole, place + [i], mnt.subtree[i], Rest(mnt.subtree[i].relativePath, name))
  {
    Deeper(m, place, i);
    var below := Find(mnt.subtree[i], Rest(mnt.subtree[i].relativePath, name)).0;
    assert place + ([i] + below) == (place + [i]) + below;
  }

  lemma RestIsEnd(key: string, path: string)
    requires Covers(key, path) && Rest(key, path) != ""
    ensures path != "" && Rest(key, path)[|Rest(key, path)| - 1] == path[|path| - 1]
  {
  }

  // What the search leaves is the end of the mount point.
  lemma RestEndsIt(root: Mount, mountpoint: string)
    requires Ordered(root) && mountpoint != "" && mountpoint[0] == '/'
    ensures var rest := Find(root, mountpoint[1..]).1;
      rest != "" ==> rest[|rest| - 1] == mountpoint[|mountpoint| - 1]
  {
    FindIsInCharge(root, mountpoint[1..]);
    hide Find, Ordered, ValidPlace, Key, Covers, Rest;
    var (place, rest) := Find(root, mountpoint[1..]);
    if place != [] && rest != "" {
      RestIsEnd(Key(root, place), mountpoint[1..]);
    }
  }

  class MountTable {
    var root: Mount

    ghost predicate Valid()
      reads this
    {
      Ordered(root) && PathsRight(root)
    }

    // The part of mount_init that builds the tree: the root with the device manager at /dev.
    constructor (rootDevice: string)
      ensures Valid()
      ensures root == Mount(rootDevice, "/", "", [Mount("devman", "/dev", "dev", [])])
    {
      root := Mount(rootDevice, "/", "", [Mount("devman", "/dev", "dev", [])]);
      new;
      forall place: seq<nat> | place != [] && ValidPlace(root, place)
        ensures At(root, place).absolutePath == "/" + Key(root, place)
      {
        assert ValidPlace(root.subtree[0], place[1..]);
        assert place[1..] == [] && Key(root, place) == "dev";
      }
    }

    // The inner loop of etsi_kohta: the first child the name goes through.
    static method FindChild(mnt: Mount, name: string) returns (i: nat)
      ensures i == FirstMatch(mnt, name, 0)
    {
      i := 0;
      while i < |mnt.subtree|
        invariant i <= |mnt.subtree| && FirstMatch(mnt, name, 0) == FirstMatch(mnt, name, i)
      {
        var child := mnt.subtree[i];
        var j := StrRmSame(name, child.relativePath);
        SameUpTo(child.relativePath, name, j);
        if j == |child.relativePath| && (j == |name| || name[j] == '/') {
          return;
        }
        i := i + 1;
      }
    }

    // etsi_kohta
    method EtsiKohta(filename: string) returns (found: bool, place: seq<nat>, rest: string)
      requires Valid()
      ensures found <==> filename != "" && filename[0] == '/'
      ensures found ==> ValidPlace(root, place) && (place, rest) == Find(root, filename[1..])
    {
      place, rest := [], "";
      if filename == "" || filename[0] != '/' {
        return false, place, rest;
      }
      found := true;
      var name := filename[1..];
      var mnt := root;
      if name == "" {
        NothingBelowEmpty(root);
        return;
      }
      var again := true;
      assert [] + Find(root, name).0 == Find(root, name).0;
      while again
        invariant ValidPlace(root, place) && mnt == At(root, place) && Ordered(mnt)
        invariant SearchAt(root, filename[1..], place, mnt, name)
        invariant !again ==> Find(mnt, name) == ([], name)
        decreases mnt, again
      {
        again := false;
        var i := FindChild(mnt, name);
        if i < |mnt.subtree| {
          var child := mnt.subtree[i];
          Descend(root, filename[1..], place, mnt, name, i);
          var longer := |name| > |child.relativePath|;
          name := if longer then name[|child.relativePath| + 1..] else "";
          mnt, place := child, place + [i];
          if name == "" {
            NothingBelowEmpty(mnt);
          } else {
            again := true;
          }
        }
      }
      assert place + [] == place;
      rest := name;
    }

    // The tree update of mount_something.  Whether the device opens and holds a file system is
    // up to the device.  The test for a mount point in use looks at the character before the
    // text that is left; with a slash at the end it looks for a lone slash instead, and the path
    // that is copied has no end: what the tree is then is left open.
    method MountSomething(device: string, mountpoint: string, opens: bool, hasFs: bool) returns (code: MountResult)
      requires Valid()
      modifies this
      ensures code != Unterminated ==> Valid()
      ensures code == TotalFailure <==> mountpoint == "" || mountpoint[0] != '/'
      ensures code == AlreadyMounted <==>
        && mountpoint != "" && mountpoint[0] == '/'
        && if GoodPoint(mountpoint) then exists p: seq<nat> :: MountedAt(old(root), p, mountpoint)
           else Find(old(root), mountpoint[1..]).1 == "/"
      ensures code == DeviceError <==> code != TotalFailure && code != AlreadyMounted && !opens
      ensures code == FilesysError <==> code != TotalFailure && code != AlreadyMounted && opens && !hasFs
      ensures code == Unterminated <==>
        code != TotalFailure && code != AlreadyMounted && opens && hasFs && !GoodPoint(mountpoint)
      ensures code != Mounted && code != Unterminated ==> root == old(root)
      ensures code == Mounted ==> root == MountOne(old(root), Request(device, mountpoint))
    {
      var found, place, rest := EtsiKohta(mountpoint);
      if !found {
        return TotalFailure;
      }
      if GoodPoint(mountpoint) {
        UsedPath(root, mountpoint);
      }
      var slashAtEnd := if mountpoint[|mountpoint| - 1] == '/' then 1 else 0;
      if |rest| - slashAtEnd == 0 {
        RestEndsIt(root, mountpoint);
        return AlreadyMounted;
      }
      if !opens {
        return DeviceError;
      }
      if !hasFs {
        return FilesysError;
      }
      if slashAtEnd == 1 {
        return Unterminated;
      }
      MountOneKeeps(root, Request(device, mountpoint));
      root := Insert(root, place, Mount(device, mountpoint, rest, []));
      return Mounted;
    }
  }
}
