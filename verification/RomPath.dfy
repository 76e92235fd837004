/**
 The path tokenizer of dbm_RomPathTool.cpp. A path is a string without zero characters; reading at its end gives the
 terminating zero. The pointers into the path are indices.
 */
module RomPath {
  import opened Wrappers

  type PathChar = c: int | 0 <= c < 0x1_0000

  type Path = p: seq<PathChar> | forall i :: 0 <= i < |p| ==> p[i] != 0

  type Name = seq<PathChar>

  predicate ZeroFree(name: Name) {
    forall i :: 0 <= i < |name| ==> name[i] != 0
  }

  const MAX_PATH_LENGTH := 256

  datatype Error =
    | KeyNotFound | DirectoryNotFound | FileNotFound | InvalidOperation
    | InvalidPathFormat | DirectoryNameTooLong | FileNameTooLong

  datatype Result<T> = Ok(value: T) | Err(error: Error)

  predicate IsSeparator(c: int) {
    c == 0x2F
  }

  function CharAt(path: seq<PathChar>, i: nat): int
    requires i <= |path|
  {
    if i == |path| then 0 else path[i]
  }

  predicate IsCurrentDirectory(name: Name) {
    name == [0x2E]
  }

  predicate IsParentDirectory(name: Name) {
    name == [0x2E, 0x2E]
  }

  // ---- what a path stands for ----

  /** The length of the name that a path begins with. */
  function NameLength(p: seq<PathChar>): (n: nat)
    ensures n <= |p| && (forall i :: 0 <= i < n ==> !IsSeparator(p[i])) && (n < |p| ==> IsSeparator(p[n]))
  {
    if p == [] || IsSeparator(p[0]) then 0 else 1 + NameLength(p[1..])
  }

  /** The names between the separators, of which there may be any number in a row. */
  function Components(p: seq<PathChar>): seq<Name>
    decreases |p|
  {
    if p == [] then []
    else if IsSeparator(p[0]) then Components(p[1..])
    else [p[..NameLength(p)]] + Components(p[NameLength(p)..])
  }

  lemma {:induction false} NameLengthUnique(p: seq<PathChar>, n: nat)
    requires n <= |p| && (forall i :: 0 <= i < n ==> !IsSeparator(p[i])) && (n < |p| ==> IsSeparator(p[n]))
    ensures NameLength(p) == n
  {
    if n > 0 {
      NameLengthUnique(p[1..], n - 1);
    }
  }

  lemma {:induction false} SkipSeparator(path: seq<PathChar>, i: nat)
    requires i < |path| && IsSeparator(path[i])
    ensures Components(path[i..]) == Components(path[i + 1..])
  {
    assert path[i..][1..] == path[i + 1..];
  }

  lemma FirstComponent(path: seq<PathChar>, i: nat, n: nat)
    requires i + n <= |path| && n > 0 && (forall k :: i <= k < i + n ==> !IsSeparator(path[k]))
    requires i + n < |path| ==> IsSeparator(path[i + n])
    ensures Components(path[i..]) == [path[i..i + n]] + Components(path[i + n..])
  {
    var p := path[i..];
    assert forall k :: 0 <= k < n ==> p[k] == path[i + k];
    NameLengthUnique(p, n);
    assert p[..n] == path[i..i + n] && p[n..] == path[i + n..];
  }

  lemma NothingAhead(path: Path, i: nat)
    requires i <= |path| && (i < |path| ==> !IsSeparator(path[i]))
    ensures Components(path[i..]) == [] <==> i == |path|
  {
  }

  predicate EndsInSeparator(path: seq<PathChar>) {
    path != [] && IsSeparator(path[|path| - 1])
  }

  /** The first of these names is too long for a directory, and something follows it in the path. */
  predicate TooLong(names: seq<Name>, slash: bool) {
    names != [] && |names[0]| >= MAX_PATH_LENGTH && (|names| > 1 || slash)
  }

  /** No name is left exactly when only separators are. */
  lemma {:induction false} NoComponents(path: seq<PathChar>, i: nat)
    requires i <= |path|
    ensures Components(path[i..]) == [] <==> forall k :: i <= k < |path| ==> IsSeparator(path[k])
    decreases |path| - i
  {
    if i < |path| && IsSeparator(path[i]) {
      SkipSeparator(path, i);
      NoComponents(path, i + 1);
    }
  }

  /** A name is followed by something when a separator ends it: by a name, or by the separators that end the path. */
  lemma FollowedBySeparator(path: seq<PathChar>, i: nat, n: nat)
    requires i + n < |path| && n > 0 && (forall k :: i <= k < i + n ==> !IsSeparator(path[k]))
    requires IsSeparator(path[i + n])
    ensures Components(path[i..]) == [path[i..i + n]] + Components(path[i + n + 1..])
    ensures Components(path[i + n + 1..]) != [] || EndsInSeparator(path)
  {
    hide Components;
    FirstComponent(path, i, n);
    SkipSeparator(path, i + n);
    NoComponents(path, i + n + 1);
  }

  lemma LastName(path: seq<PathChar>, i: nat)
    requires i <= |path| && forall k :: i <= k < |path| ==> !IsSeparator(path[k])
    ensures Components(path[i..]) == if i == |path| then [] else [path[i..]]
    ensures i < |path| ==> !EndsInSeparator(path)
  {
    if i < |path| {
      FirstComponent(path, i, |path| - i);
      assert path[i..i + (|path| - i)] == path[i..] && path[i + (|path| - i)..] == [];
    }
  }

  lemma {:induction false} SeparatorBehind(p: seq<PathChar>, c: PathChar)
    requires IsSeparator(c)
    ensures Components(p + [c]) == Components(p)
    decreases |p|
  {
    var q := p + [c];
    if p == [] {
      assert q[1..] == [];
    } else if IsSeparator(p[0]) {
      SeparatorBehind(p[1..], c);
      assert q[1..] == p[1..] + [c];
    } else {
      var n := NameLength(p);
      NameLengthUnique(q, n);
      SeparatorBehind(p[n..], c);
      assert q[..n] == p[..n] && q[n..] == p[n..] + [c];
    }
  }

  /** Separators, however many, end no further name. */
  lemma {:induction false} SeparatorsBehind(path: seq<PathChar>, i: nat, j: nat)
    requires i <= j <= |path| && forall k :: i <= k < j ==> IsSeparator(path[k])
    ensures Components(path[..j]) == Components(path[..i])
    decreases j - i
  {
    if i < j {
      SeparatorsBehind(path, i, j - 1);
      SeparatorBehind(path[..j - 1], path[j - 1]);
      assert path[..j] == path[..j - 1] + [path[j - 1]];
    }
  }

  lemma {:induction false} NameBehind(p: seq<PathChar>, name: Name)
    requires IsName(name) && (p == [] || IsSeparator(p[|p| - 1]))
    ensures Components(p + name) == Components(p) + [name]
    decreases |p|
  {
    var q := p + name;
    if p == [] {
      assert q == name;
      NameLengthUnique(name, |name|);
      assert name[..|name|] == name && name[|name|..] == [];
    } else if IsSeparator(p[0]) {
      NameBehind(p[1..], name);
      assert q[1..] == p[1..] + name;
    } else {
      var n := NameLength(p);
      NameLengthUnique(q, n);
      NameBehind(p[n..], name);
      assert q[..n] == p[..n] && q[n..] == p[n..] + name;
    }
  }

  lemma LastNameBehind(path: seq<PathChar>, i: nat, j: nat)
    requires 0 < i < j <= |path| && IsSeparator(path[i - 1]) && forall k :: i <= k < j ==> !IsSeparator(path[k])
    ensures Components(path[..j]) == Components(path[..i]) + [path[i..j]]
  {
    assert path[..j] == path[..i] + path[i..j];
    NameBehind(path[..i], path[i..j]);
  }

  lemma NothingBefore(path: seq<PathChar>)
    ensures Components(path[..0]) == []
  {
  }

  // ---- where names lead ----

  /** The directories that names lead through, from the root down; none where they lead above the root. */
  function Trail(names: seq<Name>): Option<seq<Name>> {
    if names == [] then Some([])
    else
      var before, name := Trail(names[..|names| - 1]), names[|names| - 1];
      if before.None? || IsCurrentDirectory(name) then before
      else if !IsParentDirectory(name) then Some(before.value + [name])
      else if before.value == [] then None
      else Some(before.value[..|before.value| - 1])
  }

  /**
   The name of the directory `up` levels above the one that names lead to, looked for from the last name back: `..`
   goes up further. The root has the empty name.
   */
  function NameAbove(names: seq<Name>, up: nat): Option<Name>
    decreases |names|
  {
    if names == [] then if up == 0 then Some([]) else None
    else
      var before, name := names[..|names| - 1], names[|names| - 1];
      if IsCurrentDirectory(name) then NameAbove(before, up)
      else if IsParentDirectory(name) then NameAbove(before, up + 1)
      else if up == 0 then Some(name)
      else NameAbove(before, up - 1)
  }

  /** Looking back over the names finds the directories of the trail. */
  lemma {:induction false} AboveOnTrail(names: seq<Name>, up: nat)
    requires Trail(names).Some?
    ensures var trail := Trail(names).value;
            NameAbove(names, up) == if up < |trail| then Some(trail[|trail| - 1 - up])
                                    else if up == |trail| then Some([]) else None
    decreases |names|
  {
    if names != [] {
      var before, name := names[..|names| - 1], names[|names| - 1];
      if IsCurrentDirectory(name) {
        AboveOnTrail(before, up);
      } else if IsParentDirectory(name) {
        AboveOnTrail(before, up + 1);
      } else if up > 0 {
        AboveOnTrail(before, up - 1);
      }
    }
  }

  lemma NothingAbove(path: Path, up: nat)
    ensures NameAbove(Components(path[..0]), up) == if up == 0 then Some([]) else None
  {
  }

  lemma LastNameAbove(names: seq<Name>, name: Name, up: nat)
    ensures NameAbove(names + [name], up) ==
            if IsCurrentDirectory(name) then NameAbove(names, up)
            else if IsParentDirectory(name) then NameAbove(names, up + 1)
            else if up == 0 then Some(name)
            else NameAbove(names, up - 1)
  {
    assert (names + [name])[..|names|] == names;
  }

  lemma TrailStep(names: seq<Name>, name: Name)
    ensures Trail(names + [name]) ==
            var before := Trail(names);
            if before.None? || IsCurrentDirectory(name) then before
            else if !IsParentDirectory(name) then Some(before.value + [name])
            else if before.value == [] then None
            else Some(before.value[..|before.value| - 1])
  {
    assert (names + [name])[..|names|] == names;
  }

  // ---- a path spelled from names ----

  function Slashes(n: nat): seq<PathChar> {
    seq(n, _ => 0x2F)
  }

  /** Every name after one separator and a number of superfluous ones; some more of them may end the path. */
  function Spell(names: seq<Name>, extra: seq<nat>, last: nat): seq<PathChar>
    requires |extra| == |names|
  {
    if names == [] then Slashes(last)
    else Slashes(extra[0] + 1) + (names[0] + Spell(names[1..], extra[1..], last))
  }

  predicate IsName(name: Name) {
    name != [] && forall i :: 0 <= i < |name| ==> !IsSeparator(name[i])
  }

  lemma {:induction false} SlashesSkipped(n: nat, p: seq<PathChar>)
    ensures Components(Slashes(n) + p) == Components(p)
  {
    if n == 0 {
      assert Slashes(0) + p == p;
    } else {
      var whole := Slashes(n) + p;
      assert whole[1..] == Slashes(n - 1) + p;
      SlashesSkipped(n - 1, p);
    }
  }

  /** Reading a path gives back the names it was spelled from, whatever separators were repeated. */
  lemma {:induction false} SpelledComponents(names: seq<Name>, extra: seq<nat>, last: nat)
    requires |extra| == |names| && forall i :: 0 <= i < |names| ==> IsName(names[i])
    ensures Components(Spell(names, extra, last)) == names
  {
    if names == [] {
      SlashesSkipped(last, []);
      assert Slashes(last) + [] == Slashes(last);
    } else {
      var rest := Spell(names[1..], extra[1..], last);
      var p := names[0] + rest;
      SlashesSkipped(extra[0] + 1, p);
      assert p[0..] == p && p[0..|names[0]|] == names[0] && p[|names[0]|..] == rest;
      assert rest != [] ==> rest[0] == 0x2F;
      FirstComponent(p, 0, |names[0]|);
      SpelledComponents(names[1..], extra[1..], last);
    }
  }

  /**
   GetParentDirectoryName: walks back over the path from the name at `base`, and gives the name of the directory above
   the one it stands in, or of the one above that for `..`.
   */
  method GetParentDirectoryName(path: Path, base: nat, name: Name) returns (r: Result<Name>)
    requires 0 < base <= |path| && IsSeparator(path[0]) && IsSeparator(path[base - 1])
    ensures r == match NameAbove(Components(path[..base]), if IsParentDirectory(name) then 1 else 0)
                 case Some(n) => Ok(n)
                 case None => Err(InvalidPathFormat)
  {
    hide Components, NameAbove;
    var depth := 1;
    if IsParentDirectory(name) {
      depth := depth + 1;
    }
    ghost var goal := NameAbove(Components(path[..base]), depth - 1);
    var start, end, length, p := base, base + |name| - 1, 0, base - 1;
    ghost var last := base;    // the names looked at so far lie behind this place
    while p >= 0
      invariant -2 <= p < base && length >= 0 && depth >= 0 && 0 <= last <= base && (p >= 0 || last == 0)
      invariant if length == 0 then p == base - 1 && depth > 0 && goal == NameAbove(Components(path[..base]), depth - 1)
                else p + length == end == last - 1 && goal == NameAbove(Components(path[..last]), depth)
      invariant forall k :: p < k < last && 0 <= k && length > 0 ==> !IsSeparator(path[k])
    {
      if IsSeparator(path[p]) {
        var found := path[p + 1..p + 1 + length];
        if length > 0 {
          LastNameBehind(path, p + 1, last);
          LastNameAbove(Components(path[..p + 1]), found, depth);
        }
        if IsCurrentDirectory(found) {
          depth := depth + 1;
        }
        if IsParentDirectory(found) {
          depth := depth + 2;
        }
        if depth == 0 {
          start := p + 1;
          break;
        }
        p := SkipBack(path, p);
        end := p;
        last := p + 1;
        length := 0;
        depth := depth - 1;
      }
      length := length + 1;
      p := p - 1;
    }
    NothingAbove(path, depth);
    if depth != 0 {
      return Err(InvalidPathFormat);
    }
    if p == 0 {
      start := 1;
    }
    if end <= 0 {
      return Ok([]);
    }
    return Ok(path[start..end + 1]);
  }

  // The place before the separators that end at `start`; -1 when the path begins with them.
  method SkipBack(path: Path, start: nat) returns (p: int)
    requires start < |path| && IsSeparator(path[start])
    ensures -1 <= p < start && (p >= 0 ==> !IsSeparator(path[p]))
    ensures Components(path[..p + 1]) == Components(path[..start + 1])
  {
    hide Components;
    p := start;
    while p >= 0 && IsSeparator(path[p])
      invariant -1 <= p <= start && forall k :: p < k <= start ==> IsSeparator(path[k])
    {
      p := p - 1;
    }
    SeparatorsBehind(path, p + 1, start + 1);
  }

  class PathParser {
    const path: Path
    var prevStart: nat
    var prevEnd: nat
    var next: nat
    var finished: bool

    constructor (path: Path)
      ensures this.path == path && !finished
    {
      this.path := path;
      prevStart, prevEnd, next, finished := 0, 0, 0, false;
    }

    ghost predicate Valid()
      reads this
    {
      && prevStart <= prevEnd <= next <= |path| && 0 < next && IsSeparator(path[0])
      && (next < |path| ==> prevEnd < next && !IsSeparator(path[next]))
      && (prevStart < prevEnd ==> prevStart > 0 && IsSeparator(path[prevStart - 1]))
      && (forall k :: prevStart <= k < prevEnd ==> !IsSeparator(path[k]))
      && (forall k :: prevEnd <= k < next ==> IsSeparator(path[k]))
    }

    /** The names before the one that is held. */
    ghost function Behind(): seq<Name>
      reads this
      requires Valid()
    {
      Components(path[..prevStart])
    }

    lemma BehindNext()
      requires Valid()
      ensures Components(path[..next]) == if Held() == [] then Behind() else Behind() + [Held()]
    {
      hide Components;
      SeparatorsBehind(path, prevEnd, next);
      if prevStart < prevEnd {
        LastNameBehind(path, prevStart, prevEnd);
      }
    }

    /** The name the parser holds. */
    function Held(): Name
      reads this
      requires Valid()
    {
      path[prevStart..prevEnd]
    }

    /** The names the parser has not come to. */
    ghost function Ahead(): seq<Name>
      reads this
      requires Valid()
    {
      Components(path[next..])
    }

    method Initialize() returns (r: Result<()>)
      requires !finished
      modifies this
      ensures r == if path != [] && IsSeparator(path[0]) then Ok(()) else Err(InvalidPathFormat)
      ensures r.Ok? ==> Valid() && Held() == [] && Behind() == [] && Ahead() == Components(path) && !finished
    {
      hide Components;
      if !IsSeparator(CharAt(path, 0)) {
        return Err(InvalidPathFormat);
      }
      var p := SkipToLastSeparator();
      prevStart := p;
      prevEnd := prevStart;
      next := SkipSeparators(p + 1);
      SeparatorsBehind(path, 0, p);
      NothingBefore(path);
      return Ok(());
    }

    method SkipToLastSeparator() returns (p: nat)
      requires path != [] && IsSeparator(path[0])
      ensures p < |path| && Components(path[p + 1..]) == Components(path)
      ensures p + 1 < |path| ==> !IsSeparator(path[p + 1])
      ensures forall k :: 0 <= k <= p ==> IsSeparator(path[k])
    {
      hide Components;
      p := 0;
      assert path[0..] == path;
      SkipSeparator(path, 0);
      while IsSeparator(CharAt(path, p + 1))
        invariant p < |path| && Components(path[p + 1..]) == Components(path)
        invariant forall k :: 0 <= k <= p ==> IsSeparator(path[k])
        decreases |path| - p
      {
        p := p + 1;
        SkipSeparator(path, p);
      }
    }

    method SkipSeparators(start: nat) returns (i: nat)
      requires start <= |path|
      ensures start <= i <= |path| && (i < |path| ==> !IsSeparator(path[i]))
      ensures Components(path[i..]) == Components(path[start..])
      ensures forall k :: start <= k < i ==> IsSeparator(path[k])
    {
      hide Components;
      i := start;
      while IsSeparator(CharAt(path, i))
        invariant start <= i <= |path| && Components(path[i..]) == Components(path[start..])
        invariant forall k :: start <= k < i ==> IsSeparator(path[k])
        decreases |path| - i
      {
        SkipSeparator(path, i);
        i := i + 1;
      }
    }

    /**
     Gives out the name that is held, and holds the next one. A name that something follows has to be shorter than the
     limit.
     */
    method GetNextDirectoryName() returns (r: Result<Name>)
      requires Valid()
      modifies this
      ensures r == if TooLong(old(Ahead()), EndsInSeparator(path)) then Err(DirectoryNameTooLong) else Ok(old(Held()))
      ensures r.Err? <==> old(Ahead()) != [] && |old(Ahead())[0]| >= 256
                          && (|old(Ahead())| > 1 || EndsInSeparator(path))
      ensures r.Ok? ==> Valid() && finished == (old(finished) || Ahead() == [])
      ensures r.Ok? ==> if old(Ahead()) == [] then Held() == [] && Ahead() == [] else [Held()] + Ahead() == old(Ahead())
      ensures r.Ok? ==> prevStart == old(next)
      ensures r.Ok? ==> Behind() == if old(Held()) == [] then old(Behind()) else old(Behind()) + [old(Held())]
    {
      hide Components;
      BehindNext();
      var name := path[prevStart..prevEnd];
      var n := ScanName();
      if IsSeparator(CharAt(path, next + n)) {
        FollowedBySeparator(path, next, n);
        if n >= MAX_PATH_LENGTH {
          prevStart := next;
          return Err(DirectoryNameTooLong);
        }
        PassName(n);
      } else {
        LastName(path, next);
        PassLastName(n);
      }
      return Ok(name);
    }

    // The parser holds the name of `n` characters that comes next, and stands behind the separators after it.
    method PassName(n: nat)
      requires Valid() && n > 0 && next + n < |path| && IsSeparator(path[next + n])
      requires forall k :: next <= k < next + n ==> !IsSeparator(path[k])
      modifies this
      ensures Valid() && prevStart == old(next) && prevEnd == old(next) + n
      ensures Ahead() == Components(path[old(next) + n + 1..]) && finished == (old(finished) || Ahead() == [])
    {
      hide Components;
      prevStart := next;
      prevEnd := next + n;
      next := SkipSeparators(prevEnd + 1);
      if CharAt(path, next) == 0 {
        finished := true;
      }
      NothingAhead(path, next);
    }

    // The parser holds the name of `n` characters that ends the path; none, when the path has ended.
    method PassLastName(n: nat)
      requires Valid() && next + n == |path| && forall k :: next <= k < next + n ==> !IsSeparator(path[k])
      modifies this
      ensures Valid() && prevStart == old(next) && Held() == path[old(next)..] && Ahead() == [] && finished
    {
      hide Components;
      prevStart := next;
      finished := true;
      prevEnd := next + n;
      next := prevEnd;
      NothingAhead(path, next);
    }

    /** How many characters there are up to the next separator or the end. */
    method ScanName() returns (n: nat)
      requires Valid()
      ensures next + n <= |path| && (forall k :: next <= k < next + n ==> !IsSeparator(path[k]))
      ensures next + n < |path| ==> IsSeparator(path[next + n]) && n > 0
    {
      n := 0;
      while !IsSeparator(CharAt(path, next + n)) && CharAt(path, next + n) != 0
        invariant next + n <= |path| && forall k :: next <= k < next + n ==> !IsSeparator(path[k])
        decreases |path| - n
      {
        n := n + 1;
      }
    }

    lemma NothingLeft()
      requires Valid() && Ahead() == []
      ensures next == |path|
    {
      NothingAhead(path, next);
    }

    method GetAsFileName() returns (r: Result<Name>)
      requires Valid()
      ensures r == if |Held()| > MAX_PATH_LENGTH then Err(FileNameTooLong) else Ok(Held())
    {
      if prevEnd - prevStart > MAX_PATH_LENGTH {
        return Err(FileNameTooLong);
      }
      return Ok(path[prevStart..prevEnd]);
    }

    /** Once everything is parsed, this says whether the path ends with a separator. */
    method IsDirectoryPath() returns (b: bool)
      requires Valid() && next == |path|
      ensures b <==> EndsInSeparator(path)
    {
      // `.` and `..` are looked for where the path has ended already.
      b := CharAt(path, next) == 0 && path[next - 1] == 0x2F;
    }
  }
}
