/** The read-only hash table that dbm keeps its directory and file entries in (dbm_KeyValueRomStorageTemplate.h). */
module KeyValueRomStorage {
  import opened RomPath
  import opened Words

  type Position = U32

  const STORAGE_FREEENTRY: Position := 0xFFFF_FFFF

  /** The size of the buffer a stored name is read into. */
  const MAX_EXTRA_SIZE := 256

  const SIZE_OF_CHAR := 2

  datatype EntryKey = EntryKey(parentDir: Position, name: Name)

  /** One element: its key, its value, and where the next element of the same bucket is. */
  datatype Element<V> = Element(key: EntryKey, value: V, next: Position)

  function HashStep(v: bv32, c: PathChar): bv32 {
    ((v >> 5) | (v << 27)) ^ (c as bv32)
  }

  function HashFrom(v: bv32, name: Name): bv32 {
    if name == [] then v else HashStep(HashFrom(v, name[..|name| - 1]), name[|name| - 1])
  }

  function Seeded(parentDir: bv32): bv32 {
    123456789 ^ parentDir
  }

  function HashOf(key: EntryKey): bv32 {
    HashFrom(Seeded(key.parentDir as bv32), key.name)
  }

  /** A step turns the bits round by five places, the lowest ones to the top, and then mixes the character in. */
  lemma HashStepRotates(v: bv32, c: PathChar)
    ensures HashStep(v, c) == (v / 32 + v % 32 * 0x800_0000) ^ (c as bv32)
  {
  }

  /** So it can be undone, and nothing of what was mixed in before is lost. */
  lemma HashStepUndone(v: bv32, c: PathChar)
    ensures var w := HashStep(v, c) ^ (c as bv32);
            w % 0x800_0000 * 32 + w / 0x800_0000 == v
  {
  }

  lemma {:induction false} HashFromInjective(v: bv32, w: bv32, name: Name)
    ensures HashFrom(v, name) == HashFrom(w, name) <==> v == w
    decreases |name|
  {
    if name != [] {
      var rest, c := name[..|name| - 1], name[|name| - 1];
      HashFromInjective(v, w, rest);
      HashStepUndone(HashFrom(v, rest), c);
      HashStepUndone(HashFrom(w, rest), c);
    }
  }

  /** The hash begins with the parent mixed into a seed, from which it can be told again. */
  lemma SeedUndone(parentDir: bv32)
    ensures Seeded(parentDir) ^ 123456789 == parentDir && Seeded(parentDir) ^ parentDir == 123456789
  {
  }

  /** So one name has different hashes in different directories. */
  lemma ParentsHashApart(p: bv32, q: bv32, name: Name)
    ensures HashFrom(Seeded(p), name) == HashFrom(Seeded(q), name) <==> p == q
  {
    hide HashFrom, Seeded;
    HashFromInjective(Seeded(p), Seeded(q), name);
    SeedUndone(p);
    SeedUndone(q);
  }

  method Hash(key: EntryKey) returns (v: bv32)
    ensures v == HashOf(key)
  {
    v := 123456789;
    v := v ^ (key.parentDir as bv32);
    ghost var seed := v;
    var i := 0;
    while i < |key.name|
      invariant i <= |key.name| && v == HashFrom(seed, key.name[..i])
    {
      assert key.name[..i + 1][..i] == key.name[..i];
      v := HashStep(v, key.name[i]);
      i := i + 1;
    }
    assert key.name[..i] == key.name;
  }

  /** What wcsncmp answers 0 for: the texts agree up to their n-th character or up to a zero in both. */
  predicate SameText(a: seq<PathChar>, b: seq<PathChar>, n: nat)
    requires n <= |a| && n <= |b|
  {
    n == 0 || (a[0] == b[0] && (a[0] == 0 || SameText(a[1..], b[1..], n - 1)))
  }

  predicate IsEqual(key: EntryKey, stored: EntryKey) {
    key.parentDir == stored.parentDir && |key.name| == |stored.name| && SameText(key.name, stored.name, |key.name|)
  }

  lemma {:induction false} SameTextIsEqual(a: seq<PathChar>, b: seq<PathChar>)
    requires |a| == |b| && ZeroFree(a)
    ensures SameText(a, b, |a|) <==> a == b
  {
    if a != [] {
      SameTextIsEqual(a[1..], b[1..]);
      assert a == [a[0]] + a[1..] && b == [b[0]] + b[1..];
    }
  }

  datatype Storage<V> = Storage(buckets: seq<Position>, elements: map<Position, Element<V>>) {

    /** From `pos` the elements of `chain` follow each other up to the mark of the end. */
    ghost predicate Chained(pos: Position, chain: seq<Position>)
      decreases |chain|
    {
      if chain == [] then pos == STORAGE_FREEENTRY
      else pos == chain[0] && pos != STORAGE_FREEENTRY && pos in elements && Chained(elements[pos].next, chain[1..])
    }

    ghost predicate BucketHolds(chain: seq<Position>, b: nat)
      requires b < |buckets|
    {
      Chained(buckets[b], chain)
      && forall pos :: pos in elements && HashOf(elements[pos].key) as nat % |buckets| == b ==> pos in chain
    }

    ghost predicate Complete(b: nat)
      requires b < |buckets|
    {
      exists chain :: BucketHolds(chain, b)
    }

    /** Every bucket leads through a finite chain, in which the elements that hash to it are, and every name fits. */
    ghost predicate WellFormed() {
      && |buckets| > 0
      && (forall b :: 0 <= b < |buckets| ==> Complete(b))
      && (forall pos :: pos in elements ==> |elements[pos].key.name| * SIZE_OF_CHAR <= MAX_EXTRA_SIZE)
    }

    ghost predicate Has(key: EntryKey) {
      exists pos :: pos in elements && elements[pos].key == key
    }

    method HashToBucket(hash: bv32) returns (b: nat)
      requires |buckets| > 0
      ensures b == hash as nat % |buckets| < |buckets|
    {
      b := hash as nat % |buckets|;
    }

    /** Walks the key's chain: finds an element with exactly this key, or there is none in the whole storage. */
    method FindInternal(key: EntryKey) returns (r: Result<Position>)
      requires WellFormed() && ZeroFree(key.name)
      ensures r.Ok? ==> r.value in elements && elements[r.value].key == key
      ensures r.Err? ==> r.error == KeyNotFound && !Has(key)
    {
      hide HashOf, SameText;
      var hash := Hash(key);
      var indexBucket := HashToBucket(hash);
      var posTop := buckets[indexBucket];
      assert Complete(indexBucket);
      ghost var chain :| BucketHolds(chain, indexBucket);
      if posTop == STORAGE_FREEENTRY {
        return Err(KeyNotFound);
      }
      var pos := posTop;
      ghost var rest := chain;
      while true
        invariant rest != [] && Chained(pos, rest)
        invariant forall p :: p in chain ==> p in rest || (p in elements && elements[p].key != key)
        decreases |rest|
      {
        var element := elements[pos];
        if |key.name| == |element.key.name| {
          SameTextIsEqual(key.name, element.key.name);
        }
        if IsEqual(key, element.key) {
          return Ok(pos);
        }
        assert rest == [pos] + rest[1..];
        rest := rest[1..];
        pos := element.next;
        if STORAGE_FREEENTRY == pos {
          return Err(KeyNotFound);
        }
      }
    }

    /** Reads the key of the element at a position; where no element begins, that may be anything. */
    method GetByPosition(pos: Position) returns (key: EntryKey)
      ensures pos in elements ==> key == elements[pos].key
    {
      key := *;
      if pos in elements {
        key := elements[pos].key;
      }
    }

    method Get(key: EntryKey) returns (r: Result<(Position, V)>)
      requires WellFormed() && ZeroFree(key.name)
      ensures r.Ok? ==> r.value.0 in elements && elements[r.value.0].key == key
                        && r.value.1 == elements[r.value.0].value
      ensures r.Err? ==> r.error == KeyNotFound && !Has(key)
    {
      var found := FindInternal(key);
      match found
      case Err(e) => return Err(e);
      case Ok(pos) => return Ok((pos, elements[pos].value));
    }
  }
}

/** The table of a ROM file system: which entries lie in which directory (dbm_HierarchicalRomFileTableTemplate). */
module RomFileTable {
  import opened KeyValueRomStorage
  import opened RomPath
  import opened Wrappers

  const ROOT_PARENT: Position := 0xC

  datatype DirectoryEntry = DirectoryEntry(posNext: Position, posDirectory: Position, posFile: Position)

  datatype FileInfo = FileInfo(offset: int, size: int)

  datatype FileEntry = FileEntry(posNext: Position, info: FileInfo)

  const DOT: PathChar := 0x2E

  // ---- the tree ----

  datatype Tree = Dir(dirs: map<Name, Tree>, files: map<Name, FileInfo>)

  /**
   The file that the names lead to, from the last of the directories `dirs`, each of which lies in the one before it:
   `.` leads nowhere else, and `..` to the directory before.
   */
  function FileAt(dirs: seq<Tree>, names: seq<Name>): Result<FileInfo>
    requires dirs != []
    decreases |names|
  {
    var here := dirs[|dirs| - 1];
    if names == [] then Err(FileNotFound)
    else if |names| == 1 then if names[0] in here.files then Ok(here.files[names[0]]) else Err(FileNotFound)
    else if IsCurrentDirectory(names[0]) then FileAt(dirs, names[1..])
    else if IsParentDirectory(names[0]) then
      if |dirs| == 1 then Err(DirectoryNotFound) else FileAt(dirs[..|dirs| - 1], names[1..])
    else if names[0] in here.dirs then FileAt(dirs + [here.dirs[names[0]]], names[1..])
    else Err(DirectoryNotFound)
  }

  /**
   What opening gives, error by error: a name that is too long counts before its parent is looked for. `above` is the
   error for going above the root.
   */
  function OpenFrom(dirs: seq<Tree>, names: seq<Name>, slash: bool, above: Error): Result<FileInfo>
    requires dirs != [] && names != []
    decreases |names|
  {
    var here, name := dirs[|dirs| - 1], names[0];
    if |names| == 1 then
      if slash then Err(InvalidOperation)
      else if |name| > MAX_PATH_LENGTH then Err(FileNameTooLong)
      else if name in here.files then Ok(here.files[name])
      else if name in here.dirs then Err(InvalidOperation)
      else Err(FileNotFound)
    else if TooLong(names[1..], slash) then Err(DirectoryNameTooLong)
    else if IsCurrentDirectory(name) then OpenFrom(dirs, names[1..], slash, above)
    else if IsParentDirectory(name) then
      if |dirs| == 1 then Err(above) else OpenFrom(dirs[..|dirs| - 1], names[1..], slash, above)
    else if name in here.dirs then OpenFrom(dirs + [here.dirs[name]], names[1..], slash, above)
    else if name in here.files then Err(InvalidOperation)
    else Err(DirectoryNotFound)
  }

  function OpenPath(tree: Tree, path: Path, above: Error): Result<FileInfo> {
    var names := Components(path);
    if path == [] || !IsSeparator(path[0]) then Err(InvalidPathFormat)
    else if TooLong(names, EndsInSeparator(path)) then Err(DirectoryNameTooLong)
    else if names == [] then Err(InvalidOperation)
    else OpenFrom([tree], names, EndsInSeparator(path), above)
  }

  /** No name of the tree is as long as the limit of the parser. */
  ghost predicate NamesFit(tree: Tree) {
    && (forall n :: n in tree.dirs ==> |n| < MAX_PATH_LENGTH && NamesFit(tree.dirs[n]))
    && (forall n :: n in tree.files ==> |n| < MAX_PATH_LENGTH)
  }

  ghost predicate AllFit(dirs: seq<Tree>) {
    forall i :: 0 <= i < |dirs| ==> NamesFit(dirs[i])
  }

  lemma {:induction false} OpenFindsTheFile(dirs: seq<Tree>, names: seq<Name>, slash: bool, above: Error)
    requires dirs != [] && names != [] && AllFit(dirs) && !TooLong(names, slash)
    ensures OpenFrom(dirs, names, slash, above).Ok? <==> !slash && FileAt(dirs, names).Ok?
    ensures OpenFrom(dirs, names, slash, above).Ok? ==> OpenFrom(dirs, names, slash, above) == FileAt(dirs, names)
    decreases |names|
  {
    hide OpenFrom, FileAt;
    var name, rest := names[0], names[1..];
    if rest == [] {
      OneName(dirs, name, slash, above);
      assert names == [name];
    } else {
      assert names == [name] + rest;
      OpenOne(dirs, name, rest, slash, above);
      FileOne(dirs, name, rest);
      var here := dirs[|dirs| - 1];
      var next := if IsCurrentDirectory(name) then dirs
                  else if IsParentDirectory(name) then (if |dirs| == 1 then dirs else dirs[..|dirs| - 1])
                  else if name in here.dirs then dirs + [here.dirs[name]] else dirs;
      if TooLong(rest, slash) {
        NoLongName(next, rest, slash);
      } else {
        OpenFindsTheFile(next, rest, slash, above);
      }
    }
  }

  lemma OneName(dirs: seq<Tree>, name: Name, slash: bool, above: Error)
    requires dirs != [] && AllFit(dirs)
    ensures OpenFrom(dirs, [name], slash, above).Ok? <==> !slash && FileAt(dirs, [name]).Ok?
    ensures OpenFrom(dirs, [name], slash, above).Ok? ==> OpenFrom(dirs, [name], slash, above) == FileAt(dirs, [name])
  {
  }

  lemma FileOne(dirs: seq<Tree>, name: Name, ahead: seq<Name>)
    requires dirs != [] && ahead != []
    ensures var here := dirs[|dirs| - 1];
            FileAt(dirs, [name] + ahead) ==
            if IsCurrentDirectory(name) then FileAt(dirs, ahead)
            else if IsParentDirectory(name) then
              if |dirs| == 1 then Err(DirectoryNotFound) else FileAt(dirs[..|dirs| - 1], ahead)
            else if name in here.dirs then FileAt(dirs + [here.dirs[name]], ahead)
            else Err(DirectoryNotFound)
  {
    assert ([name] + ahead)[1..] == ahead;
  }

  lemma NoLongName(dirs: seq<Tree>, names: seq<Name>, slash: bool)
    requires dirs != [] && AllFit(dirs) && TooLong(names, slash)
    ensures slash || FileAt(dirs, names).Err?
  {
  }

  /** A path opens a file exactly when it is absolute, does not end in a separator and its names lead to the file. */
  lemma OpenPathFindsTheFile(tree: Tree, path: Path, above: Error)
    requires NamesFit(tree)
    ensures OpenPath(tree, path, above).Ok? <==>
              path != [] && IsSeparator(path[0]) && !EndsInSeparator(path) && FileAt([tree], Components(path)).Ok?
    ensures OpenPath(tree, path, above).Ok? ==> OpenPath(tree, path, above) == FileAt([tree], Components(path))
  {
    var names := Components(path);
    if TooLong(names, EndsInSeparator(path)) {
      NoLongName([tree], names, EndsInSeparator(path));
    } else if names != [] {
      OpenFindsTheFile([tree], names, EndsInSeparator(path), above);
    }
  }

  /** The directories that names lead through, or why they do not: at a file, at nothing, or above the root. */
  function DirectoryAt(dirs: seq<Tree>, names: seq<Name>, above: Error): (r: Result<seq<Tree>>)
    requires dirs != []
    ensures r.Ok? ==> r.value != []
    decreases |names|
  {
    var here := dirs[|dirs| - 1];
    if names == [] then Ok(dirs)
    else if names[0] == [DOT] then DirectoryAt(dirs, names[1..], above)
    else if names[0] == [DOT, DOT] then
      if |dirs| == 1 then Err(above) else DirectoryAt(dirs[..|dirs| - 1], names[1..], above)
    else if names[0] in here.dirs then DirectoryAt(dirs + [here.dirs[names[0]]], names[1..], above)
    else Err(if names[0] in here.files then InvalidOperation else DirectoryNotFound)
  }

  /** When no name is too long, opening is walking the directories and looking for the last name in the last of them. */
  lemma {:induction false} OpenWalks(dirs: seq<Tree>, names: seq<Name>, last: Name, slash: bool, above: Error)
    requires dirs != [] && (forall k :: 0 <= k < |names| ==> |names[k]| < MAX_PATH_LENGTH)
    requires slash ==> |last| < MAX_PATH_LENGTH
    ensures OpenFrom(dirs, names + [last], slash, above) ==
            match DirectoryAt(dirs, names, above)
            case Err(e) => Err(e)
            case Ok(at) =>
              if slash then Err(InvalidOperation)
              else if |last| > MAX_PATH_LENGTH then Err(FileNameTooLong)
              else if last in at[|at| - 1].files then Ok(at[|at| - 1].files[last])
              else Err(if last in at[|at| - 1].dirs then InvalidOperation else FileNotFound)
    decreases |names|
  {
    hide OpenFrom;
    if names == [] {
      OpenLast(dirs, last, slash, above);
      assert names + [last] == [last];
    } else {
      var here, rest := dirs[|dirs| - 1], names[1..];
      assert names + [last] == [names[0]] + (rest + [last]);
      assert rest != [] ==> rest[0] == names[1];
      OpenOne(dirs, names[0], rest + [last], slash, above);
      if names[0] == [DOT] {
        OpenWalks(dirs, rest, last, slash, above);
      } else if names[0] == [DOT, DOT] {
        if |dirs| > 1 {
          OpenWalks(dirs[..|dirs| - 1], rest, last, slash, above);
        }
      } else if names[0] in here.dirs {
        OpenWalks(dirs + [here.dirs[names[0]]], rest, last, slash, above);
      }
    }
  }

  lemma OpenLast(dirs: seq<Tree>, last: Name, slash: bool, above: Error)
    requires dirs != []
    ensures var here := dirs[|dirs| - 1];
            OpenFrom(dirs, [last], slash, above) ==
            if slash then Err(InvalidOperation)
            else if |last| > MAX_PATH_LENGTH then Err(FileNameTooLong)
            else if last in here.files then Ok(here.files[last])
            else Err(if last in here.dirs then InvalidOperation else FileNotFound)
  {
  }

  /** Going into a directory and back, or staying where one is, changes nothing. */
  lemma ThereAndBackAgain(dirs: seq<Tree>, name: Name, names: seq<Name>)
    requires dirs != [] && names != [] && name in dirs[|dirs| - 1].dirs && name != [DOT] && name != [DOT, DOT]
    ensures FileAt(dirs, [[DOT]] + names) == FileAt(dirs, names)
    ensures FileAt(dirs, [name] + ([[DOT, DOT]] + names)) == FileAt(dirs, names)
  {
    hide FileAt;
    var here := dirs[|dirs| - 1];
    FileOne(dirs, [DOT], names);
    FileOne(dirs, name, [[DOT, DOT]] + names);
    FileOne(dirs + [here.dirs[name]], [DOT, DOT], names);
    assert (dirs + [here.dirs[name]])[..|dirs|] == dirs;
  }

  predicate AllNames(names: seq<Name>) {
    forall i :: 0 <= i < |names| ==> names[i] != [] && ZeroFree(names[i])
  }

  /** The names still to be walked from where the walk stands: the one the parser holds, and those ahead of it. */
  ghost function Remaining(parser: PathParser): seq<Name>
    requires parser.Valid()
    reads parser
  {
    [parser.Held()] + parser.Ahead()
  }

  /** The names of a path; the root alone has the empty one. */
  function NamesFrom(path: Path): seq<Name> {
    if Components(path) == [] then [[]] else Components(path)
  }

  lemma SeparatorsOnly(path: Path)
    requires path != [] && IsSeparator(path[0])
    ensures Components(path) == [] ==> EndsInSeparator(path)
    ensures forall tree, above :: OpenPath(tree, path, above) ==
                                  if TooLong(Components(path), EndsInSeparator(path)) then Err(DirectoryNameTooLong)
                                  else OpenFrom([tree], NamesFrom(path), EndsInSeparator(path), above)
  {
    assert path[0..] == path;
    NoComponents(path, 0);
  }

  lemma ComponentsAreNames(path: Path)
    ensures AllNames(Components(path))
  {
    assert path[0..] == path;
    ProperComponents(path, 0);
    assert path[0..] == path;
  }

  lemma {:induction false} ProperComponents(path: Path, i: nat)
    requires i <= |path|
    ensures AllNames(Components(path[i..]))
    decreases |path| - i
  {
    if i < |path| && IsSeparator(path[i]) {
      SkipSeparator(path, i);
      ProperComponents(path, i + 1);
    } else if i < |path| {
      var n := NameLength(path[i..]);
      assert path[i..][..n] == path[i..i + n] && path[i..][n..] == path[i + n..];
      ProperComponents(path, i + n);
    }
  }

  /** One name of the walk. */
  lemma OpenOne(dirs: seq<Tree>, name: Name, ahead: seq<Name>, slash: bool, above: Error)
    requires dirs != [] && ahead != []
    ensures var here := dirs[|dirs| - 1];
            OpenFrom(dirs, [name] + ahead, slash, above) ==
            if TooLong(ahead, slash) then Err(DirectoryNameTooLong)
            else if IsCurrentDirectory(name) then OpenFrom(dirs, ahead, slash, above)
            else if IsParentDirectory(name) then
              if |dirs| == 1 then Err(above) else OpenFrom(dirs[..|dirs| - 1], ahead, slash, above)
            else if name in here.dirs then OpenFrom(dirs + [here.dirs[name]], ahead, slash, above)
            else if name in here.files then Err(InvalidOperation)
            else Err(DirectoryNotFound)
  {
    assert ([name] + ahead)[1..] == ahead;
  }

  // ---- the table ----

  // The positions, the trees and, but for the root, the names of the directories that a walk stands in.
  datatype Way = Way(positions: seq<Position>, dirs: seq<Tree>, names: seq<Name>)
  {
    ghost predicate Proper() {
      |positions| == |dirs| == |names| + 1
    }

    ghost function Here(): Position
      requires Proper()
    {
      positions[|names|]
    }

    /** The directory that the entry of the last one lies in. */
    ghost function ParentDir(): Position
      requires Proper()
    {
      if names == [] then ROOT_PARENT else positions[|names| - 1]
    }

    ghost function Up(): Way
      requires Proper() && names != []
    {
      Way(positions[..|names|], dirs[..|names|], names[..|names| - 1])
    }

    ghost function Down(pos: Position, name: Name, tree: Tree): Way {
      Way(positions + [pos], dirs + [tree], names + [name])
    }
  }

  datatype RomFileTable = RomFileTable(directories: Storage<DirectoryEntry>, files: Storage<FileEntry>) {

    ghost predicate WellFormed() {
      directories.WellFormed() && files.WellFormed()
    }

    /** The directory at `pos` is the root of this tree: entry by entry, all the way down. */
    ghost predicate Represents(pos: Position, tree: Tree)
      decreases tree
    {
      && (forall n: Name :: n != [] ==> (n in tree.dirs <==> directories.Has(EntryKey(pos, n))))
      && (forall n: Name :: n != [] ==> (n in tree.files <==> files.Has(EntryKey(pos, n))))
      && (forall n: Name :: n in tree.dirs || n in tree.files ==> n != [])
      && (forall p :: p in directories.elements && directories.elements[p].key.parentDir == pos
                      && directories.elements[p].key.name in tree.dirs
                      ==> Represents(p, tree.dirs[directories.elements[p].key.name]))
      && (forall p :: p in files.elements && files.elements[p].key.parentDir == pos
                      && files.elements[p].key.name in tree.files
                      ==> files.elements[p].value.info == tree.files[files.elements[p].key.name])
    }

    ghost predicate IsRoot(pos: Position) {
      pos in directories.elements && directories.elements[pos].key == EntryKey(ROOT_PARENT, [])
    }

    /** One directory is nameless, and it is the root of this tree. No other begins where its parent would. */
    ghost predicate Holds(tree: Tree) {
      && (exists root :: IsRoot(root))
      && (forall p, q :: IsRoot(p) && IsRoot(q) ==> p == q)
      && (forall p :: IsRoot(p) ==> Represents(p, tree))
      && (ROOT_PARENT in directories.elements ==> IsRoot(ROOT_PARENT))
    }

    /** The error for going above the root. */
    ghost function Above(): Error {
      if IsRoot(ROOT_PARENT) then InvalidOperation else InvalidPathFormat
    }

    ghost predicate Goes(pos: Position, parentDir: Position, name: Name, parent: Tree, tree: Tree) {
      && pos in directories.elements && directories.elements[pos].key == EntryKey(parentDir, name)
      && name != [] && ZeroFree(name) && name in parent.dirs && tree == parent.dirs[name] && Represents(pos, tree)
    }

    /** Where the walk has been: from the root down, each directory lies in the one before it. */
    ghost predicate Leads(way: Way) {
      && |way.positions| == |way.dirs| == |way.names| + 1
      && IsRoot(way.positions[0]) && Represents(way.positions[0], way.dirs[0])
      && forall i {:trigger way.names[i]} :: 0 <= i < |way.names| ==>
           Goes(way.positions[i + 1], way.positions[i], way.names[i], way.dirs[i], way.dirs[i + 1])
    }

    lemma {:induction false} RepresentedNamesFit(pos: Position, tree: Tree)
      requires WellFormed() && Represents(pos, tree)
      ensures NamesFit(tree)
      decreases tree
    {
      forall n | n in tree.dirs
        ensures |n| < MAX_PATH_LENGTH && NamesFit(tree.dirs[n])
      {
        assert directories.Has(EntryKey(pos, n));
        var p :| p in directories.elements && directories.elements[p].key == EntryKey(pos, n);
        RepresentedNamesFit(p, tree.dirs[n]);
      }
      forall n | n in tree.files
        ensures |n| < MAX_PATH_LENGTH
      {
        assert files.Has(EntryKey(pos, n));
        var p :| p in files.elements && files.elements[p].key == EntryKey(pos, n);
      }
    }

    method GetDirectoryEntry(key: EntryKey) returns (r: Result<(Position, DirectoryEntry)>)
      requires WellFormed() && ZeroFree(key.name)
      ensures r.Ok? ==> r.value.0 in directories.elements && directories.elements[r.value.0].key == key
                        && r.value.1 == directories.elements[r.value.0].value
      ensures r.Err? ==> !directories.Has(key)
                         && r.error == if files.Has(key) then InvalidOperation else DirectoryNotFound
    {
      r := directories.Get(key);
      if r.Err? && r.error == KeyNotFound {
        var res := files.Get(key);
        return Err(if res.Err? then DirectoryNotFound else InvalidOperation);
      }
    }

    method GetFileEntry(key: EntryKey) returns (r: Result<(Position, FileEntry)>)
      requires WellFormed() && ZeroFree(key.name)
      ensures r.Ok? ==> r.value.0 in files.elements && files.elements[r.value.0].key == key
                        && r.value.1 == files.elements[r.value.0].value
      ensures r.Err? ==> !files.Has(key)
                         && r.error == if directories.Has(key) then InvalidOperation else FileNotFound
    {
      r := files.Get(key);
      if r.Err? && r.error == KeyNotFound {
        var res := directories.Get(key);
        return Err(if res.Err? then FileNotFound else InvalidOperation);
      }
    }

    /** Looks one name up in a directory: what is found, or the error, is what the tree has under the name. */
    method Enter(key: EntryKey, ghost tree: Tree) returns (r: Result<(Position, DirectoryEntry)>)
      requires WellFormed() && ZeroFree(key.name) && key.name != [] && Represents(key.parentDir, tree)
      ensures r.Ok? ==> key.name in tree.dirs && r.value.0 in directories.elements
                        && directories.elements[r.value.0].key == key
      ensures r.Err? ==> key.name !in tree.dirs
                         && r.error == if key.name in tree.files then InvalidOperation else DirectoryNotFound
    {
      hide Storage.WellFormed;
      r := GetDirectoryEntry(key);
    }

    lemma ChildRepresented(pos: Position, tree: Tree, p: Position, name: Name)
      requires Represents(pos, tree) && name in tree.dirs
      requires p in directories.elements && directories.elements[p].key == EntryKey(pos, name)
      ensures Goes(p, pos, name, tree, tree.dirs[name]) || !ZeroFree(name)
    {
    }

    lemma WayDown(way: Way, p: Position, name: Name)
      requires Leads(way) && ZeroFree(name) && name in way.dirs[|way.names|].dirs
      requires p in directories.elements && directories.elements[p].key == EntryKey(way.Here(), name)
      ensures Leads(way.Down(p, name, way.dirs[|way.names|].dirs[name]))
    {
      hide Represents;
      var n := |way.names|;
      EndRepresented(way);
      ChildRepresented(way.Here(), way.dirs[n], p, name);
      var down := way.Down(p, name, way.dirs[n].dirs[name]);
      forall i | 0 <= i < |down.names|
        ensures Goes(down.positions[i + 1], down.positions[i], down.names[i], down.dirs[i], down.dirs[i + 1])
      {
        if i < n {
          assert way.names[i] == down.names[i];
        }
      }
    }

    lemma EndRepresented(way: Way)
      requires Leads(way)
      ensures Represents(way.Here(), way.dirs[|way.names|])
    {
      hide Represents;
      if way.names != [] {
        assert way.names[|way.names| - 1] == way.names[|way.names| - 1];
      }
    }

    /** The directory before the last, found again by its own entry, ends the way before the last. */
    lemma WayUp(way: Way, tree: Tree, p: Position)
      requires Holds(tree) && Leads(way) && way.names != [] && way.dirs[0] == tree
      requires p in directories.elements && way.ParentDir() in directories.elements
      requires directories.elements[p].key == directories.elements[way.ParentDir()].key
      ensures Leads(way.Up().(positions := way.Up().positions[|way.names| - 1 := p]))
    {
      hide Represents;
      var n := |way.names| - 1;
      var up := way.Up().(positions := way.Up().positions[n := p]);
      assert way.ParentDir() == way.positions[n];
      if n > 0 {
        assert Goes(way.positions[n], way.positions[n - 1], way.names[n - 1], way.dirs[n - 1], way.dirs[n]);
        EndRepresented(way.Up().Up());
        ChildRepresented(way.positions[n - 1], way.dirs[n - 1], p, way.names[n - 1]);
      }
      forall i | 0 <= i < |up.names|
        ensures Goes(up.positions[i + 1], up.positions[i], up.names[i], up.dirs[i], up.dirs[i + 1])
      {
        assert way.names[i] == up.names[i];
      }
    }

    /** Takes the root from the parser, and looks it up. */
    method EnterRoot(parser: PathParser, ghost tree: Tree)
      returns (r: Result<(Position, EntryKey, DirectoryEntry)>, ghost way: Way)
      requires WellFormed() && Holds(tree)
      requires parser.Valid() && parser.Held() == [] && parser.Behind() == [] && !parser.finished
      requires parser.Ahead() == Components(parser.path)
      modifies parser
      ensures r.Ok? ==>
        && parser.Valid() && parser.Behind() == [] && parser.finished == (parser.Ahead() == [])
        && Leads(way) && way.names == [] && way.dirs == [tree] && r.value.0 == way.Here()
        && r.value.1.parentDir == ROOT_PARENT && Remaining(parser) == NamesFrom(parser.path)
        && OpenPath(tree, parser.path, Above())
             == OpenFrom(way.dirs, Remaining(parser), EndsInSeparator(parser.path), Above())
      ensures r.Err? ==> OpenPath(tree, parser.path, Above()) == Err(r.error)
    {
      hide Storage.WellFormed, OpenFrom, TooLong, Components, EndsInSeparator, PathParser.Valid, PathParser.Ahead;
      hide PathParser.Held, PathParser.Behind, Represents;
      way := Way([], [], []);
      AbsolutePath(parser);
      SeparatorsOnly(parser.path);
      var name := parser.GetNextDirectoryName();
      if name.Err? {
        return Err(name.error), way;
      }
      var dirKey := EntryKey(ROOT_PARENT, name.value);
      var found := GetDirectoryEntry(dirKey);
      if found.Err? {
        assert false;
      }
      way := Way([found.value.0], [tree], []);
      return Ok((found.value.0, dirKey, found.value.1)), way;
    }

    lemma AbsolutePath(parser: PathParser)
      requires parser.Valid()
      ensures parser.path != [] && IsSeparator(parser.path[0])
    {
    }

    /**
     The directory before the last of the way: its entry is found by the position it is known by, and by the name that
     the path has for it. From the root there is no such name.
     */
    method GetGrandparent(pos: Position, path: Path, at: nat, name: Name, ghost way: Way, ghost tree: Tree)
      returns (r: Result<(Position, EntryKey, DirectoryEntry)>, ghost up: Way)
      requires WellFormed() && Holds(tree) && Leads(way) && way.dirs[0] == tree && pos == way.ParentDir()
      requires IsParentDirectory(name) && 0 < at <= |path| && IsSeparator(path[0]) && IsSeparator(path[at - 1])
      requires Trail(Components(path[..at])) == Some(way.names)
      ensures way.names == [] ==> r == Err(InvalidPathFormat)
      ensures way.names != [] ==>
        && r.Ok? && Leads(up) && up.names == way.Up().names && up.dirs == way.Up().dirs
        && r.value.0 == up.Here() && r.value.1.parentDir == up.ParentDir()
    {
      hide Storage.WellFormed, Represents, Components, Trail, NameAbove, RomFileTable.Holds;
      up := way;
      ghost var n := |way.names|;
      AboveOnTrail(Components(path[..at]), 1);
      var granpaKey := directories.GetByPosition(pos);
      var above := GetParentDirectoryName(path, at, name);
      if above.Err? {
        return Err(above.error), up;
      }
      var dirKey := EntryKey(granpaKey.parentDir, above.value);
      ParentKey(way);
      assert dirKey == directories.elements[pos].key;
      var found := GetDirectoryEntry(dirKey);
      if found.Err? {
        assert false;
      }
      WayUp(way, tree, found.value.0);
      up := way.Up().(positions := way.Up().positions[n - 1 := found.value.0]);
      return Ok((found.value.0, dirKey, found.value.1)), up;
    }

    /** The entry that the last directory lies in has the key that the way says. */
    lemma ParentKey(way: Way)
      requires Leads(way) && way.names != []
      ensures way.ParentDir() in directories.elements
      ensures directories.elements[way.ParentDir()].key
              == if |way.names| == 1 then EntryKey(ROOT_PARENT, [])
                 else EntryKey(way.Up().ParentDir(), way.names[|way.names| - 2])
      ensures |way.names| > 1 ==> ZeroFree(way.names[|way.names| - 2])
    {
      hide Represents;
      var n := |way.names|;
      if n > 1 {
        assert Goes(way.positions[n - 1], way.positions[n - 2], way.names[n - 2], way.dirs[n - 2], way.dirs[n - 1]);
      }
    }

    /** The place that the walk takes for the root's parent is that of no other directory. */
    lemma AtTheTop(way: Way, tree: Tree)
      requires Holds(tree) && Leads(way)
      ensures way.Here() == ROOT_PARENT ==> way.names == [] && Above() == InvalidOperation
      ensures way.names == [] && way.Here() != ROOT_PARENT ==> Above() == InvalidPathFormat
    {
      hide Represents;
      var n := |way.names|;
      if n > 0 {
        assert Goes(way.positions[n], way.positions[n - 1], way.names[n - 1], way.dirs[n - 1], way.dirs[n]);
      }
    }
    /**
     One turn of the walk: takes a name from the parser, and goes where it leads; for `..` by way of the entry of the
     directory before.
     */
    method Descend(parser: PathParser, oldKey: EntryKey, oldEntry: DirectoryEntry, parentPosition: Position,
                   ghost from: Way, ghost tree: Tree)
      returns (r: Result<(Position, EntryKey, DirectoryEntry)>, ghost way: Way)
      requires WellFormed() && Holds(tree) && parser.Valid() && !parser.finished && parser.Ahead() != []
      requires Leads(from) && from.dirs[0] == tree
      requires parentPosition == from.Here() && oldKey.parentDir == from.ParentDir()
      requires Trail(parser.Behind()) == Some(from.names) && AllNames(Remaining(parser))
      modifies parser
      ensures r.Ok? ==>
        && parser.Valid() && parser.finished == (parser.Ahead() == []) && Remaining(parser) == old(parser.Ahead())
        && Leads(way) && way.dirs[0] == tree && r.value.0 == way.Here() && r.value.1.parentDir == way.ParentDir()
        && Trail(parser.Behind()) == Some(way.names)
        && OpenFrom(from.dirs, old(Remaining(parser)), EndsInSeparator(parser.path), Above())
             == OpenFrom(way.dirs, Remaining(parser), EndsInSeparator(parser.path), Above())
      ensures r.Err? ==>
        OpenFrom(from.dirs, old(Remaining(parser)), EndsInSeparator(parser.path), Above()) == Err(r.error)
    {
      hide Storage.WellFormed, OpenFrom, TooLong, EndsInSeparator, PathParser.Valid, PathParser.Ahead, Components;
      hide PathParser.Held, PathParser.Behind, Represents, RomFileTable.Holds, Trail;
      way := from;
      OpenOne(way.dirs, parser.Held(), parser.Ahead(), EndsInSeparator(parser.path), Above());
      TrailStep(parser.Behind(), parser.Held());
      assert Remaining(parser)[0] == parser.Held();
      HeldAt(parser);
      var at := parser.prevStart;
      ghost var held := parser.Held();
      var name := parser.GetNextDirectoryName();
      if name.Err? {
        return Err(name.error), way;
      }
      var dirKey := oldKey.(name := name.value);
      if IsCurrentDirectory(dirKey.name) {
        dirKey := oldKey;
        return Ok((parentPosition, dirKey, oldEntry)), way;
      } else if IsParentDirectory(dirKey.name) {
        AtTheTop(way, tree);
        assert held == name.value && |held| == 2;
        if parentPosition == ROOT_PARENT {
          return Err(InvalidOperation), way;
        }
        r, way := GetGrandparent(dirKey.parentDir, parser.path, at, dirKey.name, way, tree);
      } else {
        dirKey := dirKey.(parentDir := parentPosition);
        EndRepresented(way);
        var found := Enter(dirKey, way.dirs[|way.names|]);
        if found.Err? {
          return Err(found.error), way;
        }
        WayDown(way, found.value.0, dirKey.name);
        way := way.Down(found.value.0, dirKey.name, way.dirs[|way.names|].dirs[dirKey.name]);
        return Ok((found.value.0, dirKey, found.value.1)), way;
      }
    }

    lemma HeldAt(parser: PathParser)
      requires parser.Valid()
      ensures parser.path != [] && IsSeparator(parser.path[0])
      ensures parser.prevStart <= |parser.path| && parser.Behind() == Components(parser.path[..parser.prevStart])
      ensures parser.Held() != [] ==> parser.prevStart > 0 && IsSeparator(parser.path[parser.prevStart - 1])
    {
    }

    method FindParentDirRecursive(parser: PathParser, ghost tree: Tree)
      returns (r: Result<(Position, EntryKey, DirectoryEntry)>, ghost way: Way)
      requires WellFormed() && Holds(tree)
      requires parser.Valid() && parser.Held() == [] && parser.Behind() == [] && !parser.finished
      requires parser.Ahead() == Components(parser.path)
      modifies parser
      ensures r.Ok? ==>
        && parser.Valid() && parser.Ahead() == [] && Leads(way) && r.value.0 == way.Here()
        && (Components(parser.path) != [] ==> AllNames([parser.Held()]))
        && OpenPath(tree, parser.path, Above())
             == OpenFrom(way.dirs, [parser.Held()], EndsInSeparator(parser.path), Above())
      ensures r.Err? ==> OpenPath(tree, parser.path, Above()) == Err(r.error)
    {
      hide Storage.WellFormed, OpenFrom, TooLong, Components, EndsInSeparator, PathParser.Valid, PathParser.Ahead;
      hide PathParser.Held, PathParser.Behind, Represents, OpenPath, RomFileTable.Holds;
      ComponentsAreNames(parser.path);
      r, way := EnterRoot(parser, tree);
      if r.Err? {
        return;
      }
      while !parser.finished
        invariant r.Ok? && parser.Valid() && parser.finished == (parser.Ahead() == [])
        invariant Leads(way) && way.dirs[0] == tree && r.value.0 == way.Here() && r.value.1.parentDir == way.ParentDir()
        invariant Trail(parser.Behind()) == Some(way.names)
        invariant Components(parser.path) != [] ==> AllNames(Remaining(parser))
        invariant Components(parser.path) == [] ==> parser.Ahead() == []
        invariant OpenPath(tree, parser.path, Above())
                  == OpenFrom(way.dirs, Remaining(parser), EndsInSeparator(parser.path), Above())
        decreases |Remaining(parser)|
      {
        ghost var before := Remaining(parser);
        r, way := Descend(parser, r.value.1, r.value.2, r.value.0, way, tree);
        if r.Err? {
          return;
        }
        assert before[1..] == Remaining(parser);
      }
      assert Remaining(parser) == [parser.Held()] && Remaining(parser)[0] == parser.Held();
    }

    method FindFileRecursive(path: Path, ghost tree: Tree) returns (r: Result<EntryKey>, ghost way: Way)
      requires WellFormed() && Holds(tree)
      ensures r.Ok? ==> Leads(way) && r.value.parentDir == way.Here() && AllNames([r.value.name])
                        && OpenPath(tree, path, Above()) == OpenFrom(way.dirs, [r.value.name], false, Above())
                        && |r.value.name| <= MAX_PATH_LENGTH
      ensures r.Err? ==> OpenPath(tree, path, Above()) == Err(r.error)
    {
      hide Storage.WellFormed, TooLong, Components, EndsInSeparator, PathParser.Valid, PathParser.Ahead;
      hide PathParser.Held, PathParser.Behind, Represents, RomFileTable.Holds;
      way := Way([], [], []);
      var parser := new PathParser(path);
      var res := parser.Initialize();
      if res.Err? {
        return Err(res.error), way;
      }
      var parent;
      parent, way := FindParentDirRecursive(parser, tree);
      if parent.Err? {
        return Err(parent.error), way;
      }
      parser.NothingLeft();
      var isDirectory := parser.IsDirectoryPath();
      if isDirectory {
        return Err(InvalidOperation), way;
      }
      AbsolutePath(parser);
      SeparatorsOnly(path);
      var name := parser.GetAsFileName();
      if name.Err? {
        return Err(name.error), way;
      }
      return Ok(EntryKey(parent.value.0, name.value)), way;
    }

    /** Opening a path in the table and opening it in the tree come to the same, file and error alike. */
    method OpenFile(path: Path, ghost tree: Tree) returns (r: Result<FileInfo>)
      requires WellFormed() && Holds(tree)
      ensures r == OpenPath(tree, path, Above())
    {
      hide Storage.WellFormed, Components, OpenPath, RomFileTable.Holds;
      var fileKey;
      ghost var way;
      fileKey, way := FindFileRecursive(path, tree);
      if fileKey.Err? {
        return Err(fileKey.error);
      }
      EndRepresented(way);
      var fileEntry := GetFileEntry(fileKey.value);
      if fileEntry.Err? {
        return Err(fileEntry.error);
      }
      return Ok(fileEntry.value.1.info);
    }

    /** A file opens exactly when the path is absolute, does not end in a separator, and walking the tree finds it. */
    lemma OpenFileFindsTheFile(path: Path, tree: Tree)
      requires WellFormed() && Holds(tree)
      ensures OpenPath(tree, path, Above()).Ok? <==> path != [] && IsSeparator(path[0]) && !EndsInSeparator(path)
                                                     && FileAt([tree], Components(path)).Ok?
      ensures OpenPath(tree, path, Above()).Ok? ==> OpenPath(tree, path, Above()) == FileAt([tree], Components(path))
    {
      var pos :| IsRoot(pos);
      RepresentedNamesFit(pos, tree);
      OpenPathFindsTheFile(tree, path, Above());
    }
  }

  /** A table with a root and one file in it, all in single buckets, and its tree. */
  lemma OneFileTable(root: Position, at: Position, name: Name, info: FileInfo)
    requires root != STORAGE_FREEENTRY && at != STORAGE_FREEENTRY
    requires name != [] && |name| * SIZE_OF_CHAR <= MAX_EXTRA_SIZE
    ensures var directory := Element(EntryKey(ROOT_PARENT, []), DirectoryEntry(root, root, at), STORAGE_FREEENTRY);
            var file := Element(EntryKey(root, name), FileEntry(at, info), STORAGE_FREEENTRY);
            var table := RomFileTable(Storage([root], map[root := directory]), Storage([at], map[at := file]));
            table.WellFormed() && table.Holds(Dir(map[], map[name := info]))
  {
    hide HashOf;
    var directory := Element(EntryKey(ROOT_PARENT, []), DirectoryEntry(root, root, at), STORAGE_FREEENTRY);
    var file := Element(EntryKey(root, name), FileEntry(at, info), STORAGE_FREEENTRY);
    var directories, files := Storage([root], map[root := directory]), Storage([at], map[at := file]);
    assert [root][1..] == [] && [at][1..] == [];
    assert directories.Chained(STORAGE_FREEENTRY, []) && files.Chained(STORAGE_FREEENTRY, []);
    assert directories.Chained(root, [root]) && files.Chained(at, [at]);
    assert directories.BucketHolds([root], 0) && files.BucketHolds([at], 0);
    var table := RomFileTable(directories, files);
    assert files.elements[at].key == EntryKey(root, name);
    assert table.IsRoot(root);
    assert table.Represents(root, Dir(map[], map[name := info]));
  }
}
