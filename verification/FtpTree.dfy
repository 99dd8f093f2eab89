/** The tree of an FTP server, what its commands make of it, and the flat key map that it holds. */
module FtpTree {
  import opened Basics
  import opened Rows

  /** A position in the tree: the names on the way down from the root. */
  type Path = seq<string>

  datatype Node = Dir | File(data: bytes)

  type Tree = map<Path, Node>

  function Parent(p: Path): Path
    requires p != []
  {
    p[..|p| - 1]
  }

  predicate IsDir(t: Tree, p: Path) {
    p in t && t[p].Dir?
  }

  predicate IsFile(t: Tree, p: Path) {
    p in t && t[p].File?
  }

  predicate GoodName(name: string) {
    name != "" && '/' !in name
  }

  predicate GoodPath(p: Path) {
    forall n :: n in p ==> GoodName(n)
  }

  /** The names that a server takes for the directory itself and for its parent. */
  predicate DotName(name: string) {
    name == "." || name == ".."
  }

  /** Names that can be entries of a directory. */
  predicate PlainPath(p: Path) {
    GoodPath(p) && forall n :: n in p ==> !DotName(n)
  }

  /** The root is a directory and everything else stands in a directory. */
  ghost predicate Closed(t: Tree) {
    IsDir(t, []) && forall p {:trigger p in t, Parent(p)} :: p in t && p != [] ==> 
      IsDir(t, Parent(p)) && GoodName(p[|p| - 1]) && !DotName(p[|p| - 1])
  }

  // ---- keys and paths

  function KeyOf(p: Path): string {
    Join(p, '/')
  }

  function PathOf(key: string): Path {
    Split(key, '/')
  }

  /** A key that is a path name in its normal form: no empty part, no dots, nothing that ends a command line. */
  predicate Canonical(key: string) {
    OneLine(key) && forall n :: n in PathOf(key) ==> n != "" && !DotName(n)
  }

  /** The path a server makes of a path name. */
  function Resolve(text: string): Path {
    NonEmpty(Split(text, '/'))
  }

  lemma {:induction false} NonEmptyNames(p: Path)
    requires GoodPath(p)
    ensures NonEmpty(p) == p
  {
    if p != [] {
      assert p[0] in p;
      NonEmptyNames(p[1..]);
    }
  }

  lemma KeyRoundTrip(p: Path)
    requires GoodPath(p)
    ensures Resolve(KeyOf(p)) == p
    ensures p != [] ==> PathOf(KeyOf(p)) == p
  {
    if p != [] {
      forall n | n in p ensures '/' !in n {}
      SplitJoin(p, '/');
      NonEmptyNames(p);
    }
  }

  lemma CanonicalPath(key: string)
    requires Canonical(key)
    ensures PlainPath(PathOf(key)) && PathOf(key) != [] && KeyOf(PathOf(key)) == key && Resolve(key) == PathOf(key)
  {
    JoinSplit(key, '/');
    NonEmptyNames(PathOf(key));
  }

  /** The flat key map: the data of every file by its key. */
  function Files(t: Tree): FlatMap {
    map k | k in (set p | p in t.Keys && t[p].File? :: KeyOf(p)) && IsFile(t, PathOf(k)) :: t[PathOf(k)].data
  }

  lemma FilesAre(t: Tree)
    ensures forall k :: k in Files(t) <==> IsFile(t, PathOf(k))
    ensures forall k :: k in Files(t) ==> Files(t)[k] == t[PathOf(k)].data
  {
    forall k | IsFile(t, PathOf(k)) ensures k in Files(t) { JoinSplit(k, '/'); }
  }

  // ---- what the commands do

  /** MKD makes a directory where nothing is and the parent is a directory. */
  function MkdTree(t: Tree, d: Path): Tree {
    if d != [] && d !in t && IsDir(t, Parent(d)) then t[d := Dir] else t
  }

  /** STOR writes a file where no directory is and the parent is one. */
  predicate Storable(t: Tree, p: Path) {
    p != [] && IsDir(t, Parent(p)) && !IsDir(t, p)
  }

  /** MKD for every proper ancestor of `p`, shortest first. */
  function AddDirs(t: Tree, p: Path): Tree {
    if |p| <= 1 then t else MkdTree(AddDirs(t, Parent(p)), Parent(p))
  }

  predicate FileAbove(t: Tree, p: Path) {
    exists i :: 0 < i < |p| && IsFile(t, p[..i])
  }

  /** What stands in the way of storing a file: a file among its ancestors, or a directory in its place. */
  predicate Blocked(t: Tree, p: Path) {
    FileAbove(t, p) || IsDir(t, p)
  }

  predicate IsAncestor(q: Path, p: Path) {
    0 < |q| < |p| && q == p[..|q|]
  }

  ghost predicate WithAncestors(t: Tree, u: Tree, p: Path) {
    (forall q :: q in u <==> q in t || IsAncestor(q, p)) &&
    (forall q :: q in t ==> u[q] == t[q]) &&
    (forall q :: IsAncestor(q, p) ==> IsDir(u, q))
  }

  lemma ParentAncestors(p: Path)
    requires |p| > 1
    ensures forall q :: IsAncestor(q, p) <==> IsAncestor(q, Parent(p)) || q == Parent(p)
  {
    forall q | 0 < |q| < |p| ensures IsAncestor(q, p) <==> IsAncestor(q, Parent(p)) || q == Parent(p) {
      if |q| < |Parent(p)| { assert Parent(p)[..|q|] == p[..|q|]; }
    }
  }

  /** One more directory at the end of the chain. */
  lemma MkdExtends(t: Tree, u: Tree, p: Path)
    requires |p| > 1 && Closed(t) && Closed(u) && GoodPath(p) && !IsFile(t, Parent(p))
    requires WithAncestors(t, u, Parent(p)) && IsDir(u, Parent(Parent(p)))
    ensures WithAncestors(t, MkdTree(u, Parent(p)), p) && IsDir(MkdTree(u, Parent(p)), Parent(p))
  {
    ParentAncestors(p);
    assert !IsAncestor(Parent(p), Parent(p));
  }

  lemma MkdClosed(t: Tree, d: Path)
    requires Closed(t) && (d != [] ==> GoodName(d[|d| - 1]) && !DotName(d[|d| - 1]))
    ensures Closed(MkdTree(t, d))
  {
    var u := MkdTree(t, d);
    forall q | q in u && q != [] ensures IsDir(u, Parent(q)) && GoodName(q[|q| - 1]) && !DotName(q[|q| - 1]) {
      if q != d { assert q in t && IsDir(t, Parent(q)); }
    }
  }

  lemma GoodParent(p: Path)
    requires PlainPath(p) && p != []
    ensures PlainPath(Parent(p)) && GoodName(p[|p| - 1]) && !DotName(p[|p| - 1])
  {
    assert p[|p| - 1] in p;
    forall n | n in Parent(p) ensures GoodName(n) && !DotName(n) { assert n in p; }
  }

  /** With no file above, the directories are all made, and nothing else changes. */
  lemma {:induction false} AddDirsMakesAncestors(t: Tree, p: Path)
    requires Closed(t) && PlainPath(p) && !FileAbove(t, p)
    ensures WithAncestors(t, AddDirs(t, p), p) && Closed(AddDirs(t, p))
    ensures p != [] ==> IsDir(AddDirs(t, p), Parent(p))
    decreases |p|
  {
    if |p| > 1 {
      var d := Parent(p);
      GoodParent(p);
      GoodParent(d);
      assert forall i :: 0 < i < |d| ==> d[..i] == p[..i];
      assert p[..|d|] == d;
      AddDirsMakesAncestors(t, d);
      MkdExtends(t, AddDirs(t, d), p);
      MkdClosed(AddDirs(t, d), d);
    } else if |p| == 1 {
      assert Parent(p) == [];
    }
  }

  /** Nothing stands below a place that is not a directory. */
  lemma {:induction false} NothingBelow(t: Tree, p: Path, i: nat)
    requires Closed(t) && i < |p| && !IsDir(t, p[..i])
    ensures p !in t
    decreases |p|
  {
    if i < |p| - 1 {
      assert Parent(p)[..i] == p[..i];
      NothingBelow(t, Parent(p), i);
    } else {
      assert Parent(p) == p[..i];
    }
  }

  /** With a file above, no directory is made at all. */
  lemma {:induction false} AddDirsStopsAtFile(t: Tree, p: Path)
    requires Closed(t) && FileAbove(t, p)
    ensures AddDirs(t, p) == t && !IsDir(t, Parent(p))
    decreases |p|
  {
    var i :| 0 < i < |p| && IsFile(t, p[..i]);
    var d := Parent(p);
    if i == |d| {
      assert p[..i] == d;
      AddDirsBeforeFile(t, d);
    } else {
      assert d[..i] == p[..i];
      assert FileAbove(t, d);
      AddDirsStopsAtFile(t, d);
      NothingBelow(t, d, i);
    }
  }

  /** The ancestors of something that is there are there already. */
  lemma {:induction false} AddDirsBeforeFile(t: Tree, p: Path)
    requires Closed(t) && p in t
    ensures AddDirs(t, p) == t
    decreases |p|
  {
    if |p| > 1 {
      assert IsDir(t, Parent(p));
      AddDirsBeforeFile(t, Parent(p));
    }
  }

  /** The tree after a put: the ancestors made, the file written. */
  function PutTree(t: Tree, p: Path, data: bytes): Tree {
    AddDirs(t, p)[p := File(data)]
  }

  /** The tree refines the flat map: a put that nothing blocks changes only its key; one that is blocked finds no
      place for its file and leaves the whole tree as it was. */
  lemma PutRefinesUpdate(t: Tree, p: Path, data: bytes)
    requires Closed(t) && PlainPath(p) && p != []
    ensures Storable(AddDirs(t, p), p) <==> !Blocked(t, p)
    ensures Blocked(t, p) ==> AddDirs(t, p) == t
    ensures !Blocked(t, p) ==> Files(PutTree(t, p, data)) == Files(t)[KeyOf(p) := data] && Closed(PutTree(t, p, data))
  {
    if FileAbove(t, p) {
      AddDirsStopsAtFile(t, p);
    } else {
      AddDirsMakesAncestors(t, p);
      if IsDir(t, p) {
        AddDirsBeforeFile(t, p);
      } else {
        PutFiles(t, p, data);
        PutClosed(t, p, data);
      }
    }
  }

  lemma KeyNames(key: string, p: Path)
    requires GoodPath(p) && p != []
    ensures PathOf(key) == p <==> key == KeyOf(p)
  {
    JoinSplit(key, '/');
    KeyRoundTrip(p);
  }

  /** Two trees with the same files, but for one. */
  lemma FilesDiffer(t: Tree, u: Tree, p: Path)
    requires GoodPath(p) && p != []
    requires forall q :: q != p ==> (IsFile(t, q) <==> IsFile(u, q)) && (IsFile(t, q) ==> t[q] == u[q])
    ensures IsFile(u, p) ==> Files(u) == Files(t)[KeyOf(p) := u[p].data]
    ensures !IsFile(u, p) ==> Files(u) == Files(t) - {KeyOf(p)}
  {
    forall k | k != KeyOf(p) ensures SameAt(Files(t), Files(u), k) {
      KeyNames(k, p);
      FileAt(t, k);
      FileAt(u, k);
    }
    KeyNames(KeyOf(p), p);
    FileAt(u, KeyOf(p));
    MapsDiffer(Files(t), Files(u), KeyOf(p));
  }

  lemma MapsDiffer(m: FlatMap, n: FlatMap, key: string)
    requires forall k :: k != key ==> SameAt(m, n, k)
    ensures n == if key in n then m[key := n[key]] else m - {key}
  {
    var r := if key in n then m[key := n[key]] else m - {key};
    forall k ensures SameAt(r, n, k) {
      if k != key { assert SameAt(m, n, k); }
    }
    assert r.Keys == n.Keys by {
      forall k ensures k in r <==> k in n { assert SameAt(r, n, k); }
    }
    forall k | k in r ensures r[k] == n[k] { assert SameAt(r, n, k); }
  }

  predicate SameAt(m: FlatMap, n: FlatMap, key: string) {
    (key in m <==> key in n) && (key in m ==> m[key] == n[key])
  }

  lemma FileAt(t: Tree, key: string)
    ensures key in Files(t) <==> IsFile(t, PathOf(key))
    ensures key in Files(t) ==> Files(t)[key] == t[PathOf(key)].data
  {
    FilesAre(t);
  }

  lemma PutFiles(t: Tree, p: Path, data: bytes)
    requires Closed(t) && GoodPath(p) && p != [] && !Blocked(t, p) && WithAncestors(t, AddDirs(t, p), p)
    ensures Files(PutTree(t, p, data)) == Files(t)[KeyOf(p) := data]
  {
    var u := PutTree(t, p, data);
    forall q | q != p ensures (IsFile(t, q) <==> IsFile(u, q)) && (IsFile(t, q) ==> t[q] == u[q]) {
      if IsAncestor(q, p) { assert IsDir(AddDirs(t, p), q) && !IsFile(t, p[..|q|]); }
    }
    FilesDiffer(t, u, p);
  }

  lemma PutClosed(t: Tree, p: Path, data: bytes)
    requires Closed(t) && PlainPath(p) && p != [] && !Blocked(t, p)
    requires Closed(AddDirs(t, p)) && IsDir(AddDirs(t, p), Parent(p)) && WithAncestors(t, AddDirs(t, p), p)
    ensures Closed(PutTree(t, p, data))
  {
    var a, u := AddDirs(t, p), PutTree(t, p, data);
    GoodParent(p);
    assert !IsAncestor(p, p);
    assert !IsDir(a, p);
    forall q | q in u && q != [] ensures IsDir(u, Parent(q)) && GoodName(q[|q| - 1]) && !DotName(q[|q| - 1]) {
      if q != p { assert q in a && IsDir(a, Parent(q)); }
    }
  }

  lemma MkdKeepsFiles(t: Tree, d: Path)
    ensures Files(MkdTree(t, d)) == Files(t)
  {
    FilesAre(t);
    FilesAre(MkdTree(t, d));
  }

  /** DELE removes one file and nothing else. */
  lemma DeleteRefinesRemoval(t: Tree, p: Path)
    requires Closed(t) && GoodPath(p) && IsFile(t, p)
    ensures Files(t - {p}) == Files(t) - {KeyOf(p)} && Closed(t - {p})
  {
    assert p != [];
    FilesDiffer(t, t - {p}, p);
    forall q | q in t - {p} && q != [] ensures IsDir(t - {p}, Parent(q)) && GoodName(q[|q| - 1]) && !DotName(q[|q| - 1]) {
      assert q in t && IsDir(t, Parent(q));
    }
  }

  // ---- a tree that has grown, on the way to a file

  /** Some ancestors of a path have been made, and nothing else has changed. */
  ghost predicate GrewToward(t: Tree, u: Tree, p: Path) {
    (forall q :: q in t ==> q in u && u[q] == t[q]) && forall q :: q in u ==> q in t || (IsAncestor(q, p) && u[q].Dir?)
  }

  lemma GrewMore(t: Tree, u: Tree, p: Path, d: Path)
    requires GrewToward(t, u, p) && IsAncestor(d, p)
    ensures GrewToward(t, MkdTree(u, d), p)
  {
  }

  lemma GrewFiles(t: Tree, u: Tree, p: Path)
    requires GrewToward(t, u, p)
    ensures Files(u) == Files(t)
  {
    FilesAre(t);
    FilesAre(u);
    forall k ensures SameAt(Files(t), Files(u), k) {
      FileAt(t, k);
      FileAt(u, k);
    }
    assert Files(t).Keys == Files(u).Keys by {
      forall k ensures k in Files(t) <==> k in Files(u) { assert SameAt(Files(t), Files(u), k); }
    }
    forall k | k in Files(t) ensures Files(t)[k] == Files(u)[k] { assert SameAt(Files(t), Files(u), k); }
  }

  /** Once there is a place for the file, every ancestor has been made. */
  lemma GrewToStorable(t: Tree, u: Tree, p: Path)
    requires Closed(t) && Closed(u) && PlainPath(p) && GrewToward(t, u, p) && Storable(u, p)
    ensures !Blocked(t, p) && u == AddDirs(t, p)
  {
    ClosedGoodPath(u, Parent(p));
    forall i | 0 < i < |p| ensures IsDir(u, p[..i]) {
      assert p[..i] == Parent(p)[..i];
      if i == |p| - 1 { assert p[..i] == Parent(p); }
    }
    AddDirsMakesAncestors(t, p);
    var a := AddDirs(t, p);
    forall q ensures q in a <==> q in u {
      if IsAncestor(q, p) { assert q == p[..|q|]; }
    }
    forall q | q in a ensures a[q] == u[q] {
      if q !in t { assert IsAncestor(q, p) && IsDir(a, q); }
    }
  }

  /** MKD for a path and all its ancestors, shortest first. */
  function Made(t: Tree, p: Path): Tree {
    if p == [] then t else MkdTree(AddDirs(t, p), p)
  }

  lemma MadeParents(t: Tree, p: Path)
    requires p != []
    ensures AddDirs(t, p) == Made(t, Parent(p))
  {
  }

  lemma MadeAgain(t: Tree, p: Path)
    ensures MkdTree(Made(t, p), p) == Made(t, p)
  {
  }

  // ---- scanning

  /** The keys of the files directly in a directory. */
  function FilesIn(t: Tree, d: Path): set<string> {
    set p | p in t.Keys && t[p].File? && p != [] && Parent(p) == d :: KeyOf(p)
  }

  /** What a walk from `at` along `rest` finds. */
  function Found(t: Tree, at: Path, rest: Path): set<string>
    decreases rest
  {
    if rest == [] then FilesIn(t, at)
    else
      var next := at + [rest[0]];
      if IsDir(t, next) then Found(t, next, rest[1..])
      else if IsFile(t, next) then {KeyOf(next)}
      else {}
  }

  /** All of `at + rest[..1]`, `at + rest[..2]`, ... are directories. */
  predicate ChainOfDirs(t: Tree, at: Path, rest: Path) {
    forall i :: 0 < i <= |rest| ==> IsDir(t, at + rest[..i])
  }

  lemma {:induction false} FoundAlongDirs(t: Tree, at: Path, rest: Path, n: nat)
    requires n <= |rest| && ChainOfDirs(t, at, rest[..n])
    ensures Found(t, at, rest) == Found(t, at + rest[..n], rest[n..])
    decreases n
  {
    if n == 0 {
      assert at + rest[..0] == at && rest[0..] == rest;
    } else {
      var next := at + [rest[0]];
      var tail := rest[1..][..n - 1];
      FirstStep(at, rest, n, 0);
      assert next + tail[..0] == next && IsDir(t, next);
      forall i | 0 < i <= |tail| ensures IsDir(t, next + tail[..i]) { FirstStep(at, rest, n, i); }
      FoundAlongDirs(t, next, rest[1..], n - 1);
      FirstStep(at, rest, n, n - 1);
      assert tail[..n - 1] == tail && rest[..n][..n] == rest[..n];
    }
  }

  lemma FirstStep(at: Path, rest: Path, n: nat, i: nat)
    requires i < n <= |rest|
    ensures at + [rest[0]] + rest[1..][..n - 1][..i] == at + rest[..n][..i + 1] && rest[1..][n - 1..] == rest[n..]
  {
    assert rest[..n][..i + 1] == rest[..i + 1] && rest[1..][..n - 1][..i] == rest[1..i + 1];
    assert rest[..i + 1] == [rest[0]] + rest[1..i + 1];
    assert at + [rest[0]] + rest[1..i + 1] == at + ([rest[0]] + rest[1..i + 1]);
  }

  /** The walk up to a stop along the way. */
  lemma FoundAt(t: Tree, parts: Path, n: nat)
    requires n < |parts| && ChainOfDirs(t, [], parts[..n])
    ensures Found(t, [], parts) == Found(t, parts[..n], parts[n..])
    ensures parts[..n] + [parts[n..][0]] == parts[..n + 1]
  {
    FoundAlongDirs(t, [], parts, n);
    assert [] + parts[..n] == parts[..n];
  }

  /** Scan characterised: along a chain of directories, the files directly in the last one; when the chain first meets
      a file, that file alone; when it first meets nothing, nothing. */
  lemma ScanCharacterised(t: Tree, parts: Path, n: nat)
    requires n <= |parts| && ChainOfDirs(t, [], parts[..n])
    ensures Found(t, [], parts) ==
      if n == |parts| then FilesIn(t, parts)
      else if IsDir(t, parts[..n + 1]) then Found(t, parts[..n + 1], parts[n + 1..])
      else if IsFile(t, parts[..n + 1]) then {KeyOf(parts[..n + 1])}
      else {}
  {
    if n == |parts| {
      assert parts[..n] == parts && parts[n..] == [] && [] + parts == parts;
      FoundAlongDirs(t, [], parts, n);
    } else {
      FoundAt(t, parts, n);
      assert parts[n..][1..] == parts[n + 1..];
    }
  }

  /** The prefix that selects what stands under a directory. */
  function DirPrefix(d: Path): string {
    if d == [] then "" else KeyOf(d) + "/"
  }

  predicate Under(p: Path, d: Path) {
    |d| < |p| && p[..|d|] == d
  }

  /** A key has the prefix of a directory exactly when its path goes through the directory. */
  lemma {:induction false} PrefixIsUnder(p: Path, d: Path)
    requires GoodPath(p) && GoodPath(d) && p != []
    ensures StartsWith(KeyOf(p), DirPrefix(d)) <==> Under(p, d)
    decreases |d|
  {
    if d != [] {
      GoodTail(p);
      GoodTail(d);
      DirPrefixCons(d);
      var tail := DirPrefix(d[1..]);
      if |p| == 1 {
        NoSlashNoPrefix(p[0], d[0], tail);
      } else {
        assert KeyOf(p) == p[0] + ['/'] + KeyOf(p[1..]);
        SamePrefix(p[0], KeyOf(p[1..]), d[0], tail);
        PrefixIsUnder(p[1..], d[1..]);
        UnderCons(p, d);
      }
    }
  }

  lemma GoodTail(p: Path)
    requires GoodPath(p) && p != []
    ensures GoodPath(p[1..]) && GoodName(p[0])
  {
    assert p[0] in p;
    forall n | n in p[1..] ensures GoodName(n) { assert n in p; }
  }

  lemma DirPrefixCons(d: Path)
    requires d != []
    ensures DirPrefix(d) == d[0] + ['/'] + DirPrefix(d[1..])
  {
    if |d| == 1 {
      assert KeyOf(d) == d[0] && DirPrefix(d[1..]) == "";
    } else {
      assert KeyOf(d) == d[0] + ['/'] + KeyOf(d[1..]);
    }
  }

  lemma UnderCons(p: Path, d: Path)
    requires p != [] && d != []
    ensures Under(p, d) <==> p[0] == d[0] && Under(p[1..], d[1..])
  {
    if |d| < |p| {
      assert p[..|d|] == [p[0]] + p[1..][..|d[1..]|] && d == [d[0]] + d[1..];
    }
  }

  lemma StartsWithCons(c: char, s: string, d: char, prefix: string)
    ensures StartsWith([c] + s, [d] + prefix) <==> c == d && StartsWith(s, prefix)
  {
    if |prefix| <= |s| {
      assert ([c] + s)[..|[d] + prefix|] == [c] + s[..|prefix|];
      assert [c] + s[..|prefix|] == [d] + prefix <==> c == d && s[..|prefix|] == prefix by {
        assert ([c] + s[..|prefix|])[1..] == s[..|prefix|] && ([d] + prefix)[1..] == prefix;
      }
    }
  }

  lemma {:induction false} NoSlashNoPrefix(key: string, name: string, tail: string)
    requires '/' !in key
    ensures !StartsWith(key, name + ['/'] + tail)
  {
    if key != "" {
      assert key == [key[0]] + key[1..] && key[0] in key;
      if name == "" {
        assert name + ['/'] + tail == ['/'] + tail;
        StartsWithCons(key[0], key[1..], '/', tail);
      } else {
        assert name + ['/'] + tail == [name[0]] + (name[1..] + ['/'] + tail);
        StartsWithCons(key[0], key[1..], name[0], name[1..] + ['/'] + tail);
        NoSlashNoPrefix(key[1..], name[1..], tail);
      }
    }
  }

  lemma {:induction false} SamePrefix(a: string, x: string, b: string, y: string)
    requires '/' !in a && '/' !in b
    ensures StartsWith(a + ['/'] + x, b + ['/'] + y) <==> a == b && StartsWith(x, y)
  {
    var s, prefix := a + ['/'] + x, b + ['/'] + y;
    assert s == [s[0]] + s[1..] && prefix == [prefix[0]] + prefix[1..];
    StartsWithCons(s[0], s[1..], prefix[0], prefix[1..]);
    if a == "" && b == "" {
      assert s[1..] == x && prefix[1..] == y;
    } else if a != "" && b != "" {
      assert s[1..] == a[1..] + ['/'] + x && prefix[1..] == b[1..] + ['/'] + y;
      SamePrefix(a[1..], x, b[1..], y);
      assert a == [a[0]] + a[1..] && b == [b[0]] + b[1..];
    } else if a != "" {
      assert a[0] in a && s[0] == a[0] && prefix[0] == '/';
    } else {
      assert b[0] in b && prefix[0] == b[0] && s[0] == '/';
    }
  }

  lemma {:induction false} ClosedGoodPath(t: Tree, p: Path)
    requires Closed(t) && p in t
    ensures PlainPath(p) && forall i :: 0 <= i < |p| ==> IsDir(t, p[..i])
    decreases |p|
  {
    if p != [] {
      assert IsDir(t, Parent(p));
      ClosedGoodPath(t, Parent(p));
      forall i | 0 <= i < |p| ensures IsDir(t, p[..i]) {
        if i < |p| - 1 { assert p[..i] == Parent(p)[..i]; }
      }
      forall n | n in p ensures GoodName(n) && !DotName(n) { assert n in Parent(p) || n == p[|p| - 1]; }
    }
  }

  // ---- the walk against the prefix filter

  /** A place on the way down to `d`, `d` itself, or a place directly in it. */
  predicate Near(p: Path, d: Path) {
    p != [] && ((|p| <= |d| && p == d[..|p|]) || Parent(p) == d)
  }

  /** The walk finds exactly the files on its way and those directly in the place it leads to. */
  lemma FoundIsNear(t: Tree, d: Path)
    requires Closed(t) && GoodPath(d)
    ensures forall k :: k in Found(t, [], d) <==> IsFile(t, PathOf(k)) && Near(PathOf(k), d)
  {
    var n := FirstStop(t, d);
    ScanCharacterised(t, d, n);
    if n == |d| {
      DirectFiles(t, d);
      forall i | 0 < i <= |d| ensures IsDir(t, d[..i]) { assert [] + d[..i] == d[..i]; }
    } else {
      forall k ensures k in Found(t, [], d) <==> IsFile(t, PathOf(k)) && Near(PathOf(k), d) { StoppedIsNear(t, d, n, k); }
    }
  }

  lemma StoppedIsNear(t: Tree, d: Path, n: nat, k: string)
    requires Closed(t) && GoodPath(d) && n < |d| && ChainOfDirs(t, [], d[..n]) && !IsDir(t, d[..n + 1])
    ensures k in (if IsFile(t, d[..n + 1]) then {KeyOf(d[..n + 1])} else {}) <==> IsFile(t, PathOf(k)) && Near(PathOf(k), d)
  {
    var p := PathOf(k);
    forall m | m in d[..n + 1] ensures GoodName(m) { assert m in d; }
    KeyNames(k, d[..n + 1]);
    if 0 < |p| <= n && p == d[..|p|] { assert [] + d[..n][..|p|] == d[..|p|]; }
    if |p| > n + 1 && p[..n + 1] == d[..n + 1] { NothingBelow(t, p, n + 1); }
    if Near(p, d) && |p| > n + 1 { NearThrough(p, d, n + 1); }
  }

  lemma NearThrough(p: Path, d: Path, i: nat)
    requires Near(p, d) && i <= |p| && i <= |d|
    ensures p[..i] == d[..i]
  {
    if |p| <= |d| {
      if p == d[..|p|] { assert p[..i] == d[..|p|][..i]; }
    } else {
      assert p[..i] == Parent(p)[..i];
    }
  }

  /** A text that is the name of a path, or the name of a directory and a slash. */
  predicate Normal(s: string) {
    s == KeyOf(Resolve(s)) || s == DirPrefix(Resolve(s))
  }

  lemma ResolveGood(s: string)
    ensures GoodPath(Resolve(s))
  {
    JoinSplit(s, '/');
    NonEmptyIn(Split(s, '/'));
  }

  lemma {:induction false} NonEmptyIn(parts: seq<string>)
    ensures forall n :: n in NonEmpty(parts) ==> n in parts && n != ""
  {
    if parts != [] { NonEmptyIn(parts[1..]); }
  }

  /** A text that some key starts with is in normal form. */
  lemma {:induction false} PrefixOfKeyIsNormal(p: Path, s: string)
    requires GoodPath(p) && p != [] && StartsWith(KeyOf(p), s)
    ensures Normal(s)
    decreases |p|
  {
    GoodTail(p);
    if |s| <= |p[0]| {
      assert s == p[0][..|s|] by { assert KeyOf(p)[..|p[0]|] == p[0]; }
      SplitOne(s, '/');
      assert NonEmpty([s]) == if s == "" then [] else [s];
      assert KeyOf([s]) == s;
    } else {
      var first, more := p[0] + ['/'], KeyOf(p[1..]);
      assert KeyOf(p) == first + more;
      var tail := s[|p[0]| + 1..];
      assert s == (first + more)[..|s|] == first + tail && tail == more[..|tail|];
      PrefixOfKeyIsNormal(p[1..], tail);
      NormalCons(p[0], tail);
    }
  }

  lemma NormalCons(name: string, tail: string)
    requires GoodName(name) && Normal(tail)
    ensures Normal(name + ['/'] + tail)
  {
    var s, d := name + ['/'] + tail, Resolve(tail);
    SplitFirst(name, '/', tail);
    NonEmptyCons(name, Split(tail, '/'));
    assert Resolve(s) == [name] + d;
    assert ([name] + d)[1..] == d;
    DirPrefixCons([name] + d);
    if d != [] && tail == KeyOf(d) { assert KeyOf([name] + d) == name + ['/'] + tail; }
  }

  /** When a place near the walk has the scanned text as a prefix of its key. */
  lemma NearStarts(p: Path, s: string)
    requires GoodPath(p) && Near(p, Resolve(s))
    ensures Parent(p) == Resolve(s) ==> (StartsWith(KeyOf(p), s) <==> Normal(s))
    ensures p == Resolve(s) ==> (StartsWith(KeyOf(p), s) <==> s == KeyOf(p))
    ensures |p| < |Resolve(s)| ==> !StartsWith(KeyOf(p), s)
  {
    var d, key := Resolve(s), KeyOf(p);
    ResolveGood(s);
    if StartsWith(key, s) { PrefixOfKeyIsNormal(p, s); }
    if Parent(p) == d {
      PrefixIsUnder(p, d);
      assert DirPrefix(d)[..|KeyOf(d)|] == KeyOf(d);
      if Normal(s) { assert key[..|s|] == key[..|DirPrefix(d)|][..|s|]; }
    }
    if p == d { assert key[..|key|] == key; }
    if |p| < |d| {
      PrefixIsUnder(d, p);
      assert |key| < |KeyOf(d)|;
    }
  }

  /** No stored key with the prefix lies deeper, no file stands on the way, and a text that is not in normal form
      leads to no file. */
  ghost predicate FlatUnder(t: Tree, s: string) {
    var d := Resolve(s);
    (forall k :: k in Files(t) && StartsWith(k, s) ==> PathOf(k) == d || Parent(PathOf(k)) == d) &&
    (forall i :: 0 < i < |d| ==> !IsFile(t, d[..i])) && (s != KeyOf(d) ==> !IsFile(t, d)) &&
    (!Normal(s) ==> forall k :: k in Files(t) ==> Parent(PathOf(k)) != d)
  }

  /** For every prefix text, the walk is the flat map's prefix filter if and only if every stored key that starts with
      the text is the place it names or directly in it, no file stands on the way (nor at the place, if the text
      goes on behind its name), and, for a text that no key starts with, no file is directly in the place. */
  lemma ScanIsFilterExactlyWhen(t: Tree, s: string)
    requires Closed(t)
    ensures Found(t, [], Resolve(s)) == Matching(Files(t), s) <==> FlatUnder(t, s)
  {
    var d := Resolve(s);
    ResolveGood(s);
    FoundIsNear(t, d);
    FilesAre(t);
    forall k | k in Files(t) ensures GoodPath(PathOf(k)) && PathOf(k) != [] && KeyOf(PathOf(k)) == k {
      JoinSplit(k, '/');
      ClosedGoodPath(t, PathOf(k));
    }
    if FlatUnder(t, s) {
      FlatIsFilter(t, s);
    } else if Found(t, [], d) == Matching(Files(t), s) {
      FilterIsFlat(t, s);
    }
  }

  /** What the theorem above has shown of the walk and of the stored keys. */
  ghost predicate WalkKnown(t: Tree, s: string) {
    (forall k :: k in Found(t, [], Resolve(s)) <==> IsFile(t, PathOf(k)) && Near(PathOf(k), Resolve(s))) &&
    (forall k :: k in Files(t) <==> IsFile(t, PathOf(k))) &&
    (forall k :: k in Files(t) ==> GoodPath(PathOf(k)) && PathOf(k) != [] && KeyOf(PathOf(k)) == k)
  }

  lemma FlatIsFilter(t: Tree, s: string)
    requires WalkKnown(t, s) && FlatUnder(t, s)
    ensures Found(t, [], Resolve(s)) == Matching(Files(t), s)
  {
    var d := Resolve(s);
    forall k ensures k in Found(t, [], d) <==> k in Matching(Files(t), s) {
      if k in Files(t) {
        var p := PathOf(k);
        if Near(p, d) { NearStarts(p, s); }
        if p == d { assert d == d[..|d|]; }
      }
    }
  }

  lemma FilterIsFlat(t: Tree, s: string)
    requires Closed(t) && WalkKnown(t, s) && Found(t, [], Resolve(s)) == Matching(Files(t), s)
    ensures FlatUnder(t, s)
  {
    var d := Resolve(s);
    ResolveGood(s);
    forall k | k in Files(t) && StartsWith(k, s) ensures PathOf(k) == d || Parent(PathOf(k)) == d {
      assert k in Matching(Files(t), s);
      NearStarts(PathOf(k), s);
      if |PathOf(k)| == |d| && PathOf(k) == d[..|d|] { assert d[..|d|] == d; }
    }
    forall i | 0 < i <= |d| && IsFile(t, d[..i]) ensures i == |d| && s == KeyOf(d) {
      forall n | n in d[..i] ensures GoodName(n) { assert n in d; }
      FileOnWay(t, s, i);
    }
    if IsFile(t, d) && d != [] { assert d[..|d|] == d; }
    forall k | k in Files(t) && !Normal(s) ensures Parent(PathOf(k)) != d {
      if Near(PathOf(k), d) { NearStarts(PathOf(k), s); }
      assert k in Found(t, [], d) <==> k in Matching(Files(t), s);
    }
  }

  lemma FileOnWay(t: Tree, s: string, i: nat)
    requires WalkKnown(t, s) && Found(t, [], Resolve(s)) == Matching(Files(t), s)
    requires 0 < i <= |Resolve(s)| && IsFile(t, Resolve(s)[..i]) && GoodPath(Resolve(s)[..i])
    ensures i == |Resolve(s)| && s == KeyOf(Resolve(s))
  {
    var p := Resolve(s)[..i];
    KeyRoundTrip(p);
    assert KeyOf(p) in Found(t, [], Resolve(s));
    assert StartsWith(KeyOf(p), s);
    NearStarts(p, s);
    if i == |Resolve(s)| { assert p == Resolve(s); }
  }

  /** A stored key whose name goes on where the prefix stops is not found. */
  lemma ScanMissesPartialNames(name: string, more: string)
    requires GoodName(name) && PlainPath([name + more]) && more != ""
    ensures var t: Tree := map[[] := Dir, [name + more] := File([])];
      Closed(t) && name + more in Matching(Files(t), name) && Found(t, [], Resolve(name)) == {}
  {
    var t: Tree := map[[] := Dir, [name + more] := File([])];
    assert Parent([name + more]) == [] && name + more in [name + more];
    SplitOne(name, '/');
    SplitOne(name + more, '/');
    assert NonEmpty([name]) == [name];
    FileAt(t, name + more);
    assert (name + more)[..|name|] == name;
    assert [] + [name] == [name] && |name + more| > |name|;
  }

  /** How far the path goes along directories. */
  lemma FirstStop(t: Tree, d: Path) returns (n: nat)
    ensures n <= |d| && ChainOfDirs(t, [], d[..n]) && (n < |d| ==> !IsDir(t, d[..n + 1]))
    ensures n == |d| ==> ChainOfDirs(t, [], d)
  {
    n := 0;
    while n < |d| && IsDir(t, d[..n + 1])
      invariant n <= |d| && forall i :: 0 < i <= n ==> IsDir(t, d[..i])
    {
      n := n + 1;
    }
    forall i | 0 < i <= n ensures IsDir(t, [] + d[..n][..i]) { assert [] + d[..n][..i] == d[..i]; }
    assert d[..|d|] == d;
  }

  /** The files directly in a directory, by key. */
  lemma DirectFiles(t: Tree, d: Path)
    requires Closed(t)
    ensures forall k :: k in FilesIn(t, d) <==> IsFile(t, PathOf(k)) && Parent(PathOf(k)) == d
  {
    forall k | k in FilesIn(t, d) ensures IsFile(t, PathOf(k)) && Parent(PathOf(k)) == d {
      var p :| p in t.Keys && t[p].File? && p != [] && Parent(p) == d && KeyOf(p) == k;
      ClosedGoodPath(t, p);
      KeyRoundTrip(p);
    }
    forall k | IsFile(t, PathOf(k)) && Parent(PathOf(k)) == d ensures k in FilesIn(t, d) { JoinSplit(k, '/'); }
  }

  /** A walk for a key as a text finds that text exactly when it is the key of a file. */
  lemma WalkFindsKey(t: Tree, key: string)
    requires Closed(t)
    ensures key in Found(t, [], Resolve(key)) <==> key in Files(t)
  {
    var p := PathOf(key);
    ResolveGood(key);
    FoundIsNear(t, Resolve(key));
    FilesAre(t);
    if IsFile(t, p) {
      ClosedGoodPath(t, p);
      NonEmptyNames(p);
      assert p == p[..|p|] && Near(p, p);
    }
  }

  lemma NothingDirectly(t: Tree)
    requires forall p :: IsFile(t, p) ==> |p| == 2
    ensures Found(t, [], []) == {}
  {
    forall p | p in t.Keys && t[p].File? ensures Parent(p) != [] { assert IsFile(t, p); }
  }

  /** An empty file `b` in a directory `a`. */
  function Deeper(a: string, b: string): Tree {
    map[[] := Dir, [a] := Dir, [a, b] := File([])]
  }

  /** A file two levels down is in the flat map, and in no scan of the root, though every key has the empty prefix. */
  lemma ScanMissesDeeperFiles(a: string, b: string)
    requires PlainPath([a, b])
    ensures Closed(Deeper(a, b)) && Found(Deeper(a, b), [], []) == {} && KeyOf([a, b]) in Files(Deeper(a, b))
  {
    DeeperClosed(a, b);
    NothingDirectly(Deeper(a, b));
    FileAt(Deeper(a, b), KeyOf([a, b]));
    KeyRoundTrip([a, b]);
  }

  lemma DeeperClosed(a: string, b: string)
    requires PlainPath([a, b])
    ensures Closed(Deeper(a, b)) && GoodPath([a, b])
  {
    assert a in [a, b] && b in [a, b];
    var t := Deeper(a, b);
    forall p | p in t && p != [] ensures IsDir(t, Parent(p)) && GoodName(p[|p| - 1]) && !DotName(p[|p| - 1]) {
      assert p == [a] || p == [a, b];
      if p == [a] { assert Parent(p) == []; } else { assert Parent(p) == [a]; }
    }
  }
}
