/**
 Storage paths: `path.Clean`, `path.Dir` and `path.Base` as the code uses them,
 the path an upload is stored under, and the directory rotation lists.
 */
module StoragePaths {
  import opened Strings
  import opened Timestamps

  // A path segment that cleaning leaves alone.
  predicate Plain(seg: string) {
    seg != "" && seg != "." && seg != ".." && '/' !in seg
  }

  predicate AllPlain(segs: seq<string>) {
    forall i :: 0 <= i < |segs| ==> Plain(segs[i])
  }

  /** Walks the segments: skips empty ones and ".", lets ".." drop its parent where there is one. */
  function Resolve(segs: seq<string>, rooted: bool, done: seq<string>): seq<string>
    decreases segs
  {
    if segs == [] then done
    else if segs[0] == "" || segs[0] == "." then Resolve(segs[1..], rooted, done)
    else if segs[0] == ".." then
      if done != [] && done[|done| - 1] != ".." then Resolve(segs[1..], rooted, done[..|done| - 1])
      else if rooted then Resolve(segs[1..], rooted, done)
      else Resolve(segs[1..], rooted, done + [".."])
    else Resolve(segs[1..], rooted, done + [segs[0]])
  }

  /** `path.Clean`. */
  function Clean(p: string): string {
    var rooted := p != "" && p[0] == '/';
    var body := Join(Resolve(Split(p, '/'), rooted, []), '/');
    if rooted then "/" + body else if body == "" then "." else body
  }

  function TrimLeft(p: string): string {
    if p != "" && p[0] == '/' then TrimLeft(p[1..]) else p
  }

  function TrimRight(p: string): string {
    if p != "" && p[|p| - 1] == '/' then TrimRight(p[..|p| - 1]) else p
  }

  /** `strings.Trim(p, "/")`. */
  function Trim(p: string): string {
    TrimRight(TrimLeft(p))
  }

  /** One past the last slash, or 0. */
  function AfterLastSlash(p: string): (n: nat)
    ensures n <= |p|
  {
    if p == "" then 0 else if p[|p| - 1] == '/' then |p| else AfterLastSlash(p[..|p| - 1])
  }

  /** `path.Dir`. */
  function Dir(p: string): string {
    Clean(p[..AfterLastSlash(p)])
  }

  /** `path.Base`. */
  function Base(p: string): string {
    var q := TrimRight(p);
    if p == "" then "." else if q == "" then "/" else q[AfterLastSlash(q)..]
  }

  function CleanKey(key: string): string {
    Trim(Clean("/" + key))
  }

  /** The directory rotation lists. */
  function RotationDir(key: string): string {
    Dir(CleanKey(key))
  }

  /** Where an upload of `key` at time `t` is stored. */
  function StoragePath(key: string, t: Stamp): string {
    var cleanKey := CleanKey(key);
    var name := StoredName(t, Base(cleanKey));
    var dir := RotationDir(cleanKey);
    if dir == "." then name else Clean(dir + "/" + name)
  }

  // =============================================================== the results

  lemma {:induction false} ResolvePlain(segs: seq<string>, rooted: bool, done: seq<string>)
    requires AllPlain(segs)
    ensures Resolve(segs, rooted, done) == done + segs
    decreases segs
  {
    if segs == [] {
      assert done + segs == done;
    } else {
      ResolvePlain(segs[1..], rooted, done + [segs[0]]);
      assert done + [segs[0]] + segs[1..] == done + segs;
    }
  }

  lemma {:induction false} ResolveRooted(segs: seq<string>, done: seq<string>)
    requires AllPlain(done) && forall i :: 0 <= i < |segs| ==> '/' !in segs[i]
    ensures AllPlain(Resolve(segs, true, done))
    decreases segs
  {
    if segs != [] {
      if segs[0] == "" || segs[0] == "." {
        ResolveRooted(segs[1..], done);
      } else if segs[0] == ".." {
        ResolveRooted(segs[1..], if done == [] then done else done[..|done| - 1]);
      } else {
        ResolveRooted(segs[1..], done + [segs[0]]);
      }
    }
  }

  lemma {:induction false} ResolveEmptyTail(segs: seq<string>, rooted: bool, done: seq<string>)
    ensures Resolve(segs + [""], rooted, done) == Resolve(segs, rooted, done)
    decreases segs
  {
    if segs != [] {
      assert (segs + [""])[1..] == segs[1..] + [""];
      var s := segs[0];
      if s == "" || s == "." {
        ResolveEmptyTail(segs[1..], rooted, done);
      } else if s == ".." {
        if done != [] && done[|done| - 1] != ".." {
          ResolveEmptyTail(segs[1..], rooted, done[..|done| - 1]);
        } else if rooted {
          ResolveEmptyTail(segs[1..], rooted, done);
        } else {
          ResolveEmptyTail(segs[1..], rooted, done + [".."]);
        }
      } else {
        ResolveEmptyTail(segs[1..], rooted, done + [s]);
      }
    }
  }

  /** The segments of a cleaned key. */
  function Segments(key: string): seq<string> {
    Resolve(Split("/" + key, '/'), true, [])
  }

  lemma {:induction false} JoinEnds(segs: seq<string>)
    requires segs != [] && AllPlain(segs)
    ensures var s := Join(segs, '/'); s != "" && s[0] != '/' && s[|s| - 1] != '/'
  {
    assert Plain(segs[0]);
    if |segs| > 1 {
      JoinEnds(segs[1..]);
    }
  }

  lemma TrimSlash(body: string)
    requires body == "" || (body[0] != '/' && body[|body| - 1] != '/')
    ensures Trim("/" + body) == body
  {
    assert ("/" + body)[1..] == body;
    assert TrimLeft("/" + body) == TrimLeft(body) == body;
    assert TrimRight(body) == body;
  }

  /** A cleaned key is its plain segments, joined. */
  lemma CleanKeySegments(key: string)
    ensures AllPlain(Segments(key))
    ensures CleanKey(key) == Join(Segments(key), '/')
  {
    ResolveRooted(Split("/" + key, '/'), []);
    var segs := Segments(key);
    var body := Join(segs, '/');
    assert Clean("/" + key) == "/" + body;
    if segs != [] {
      JoinEnds(segs);
    }
    TrimSlash(body);
  }

  /** The normalised key has no empty, "." or ".." segment, unless it is the root, which is empty. */
  lemma CleanKeyIsPlain(key: string)
    ensures CleanKey(key) == "" || AllPlain(Split(CleanKey(key), '/'))
  {
    CleanKeySegments(key);
    var segs := Segments(key);
    if segs != [] {
      SplitJoin(segs, '/');
    }
  }

  lemma RootedSplit(s: string)
    ensures Split("/" + s, '/') == [""] + Split(s, '/')
  {
    IndexAfter("", '/', s);
    assert "" + ['/'] + s == "/" + s;
    assert ("/" + s)[1..] == s;
    assert ("/" + s)[..0] == "";
  }

  lemma {:induction false} ResolveMore(segs: seq<string>, seg: string, done: seq<string>)
    ensures Resolve(segs + [seg], true, done) == Resolve([seg], true, Resolve(segs, true, done))
    decreases segs
  {
    if segs == [] {
      assert segs + [seg] == [seg];
    } else {
      assert (segs + [seg])[0] == segs[0] && (segs + [seg])[1..] == segs[1..] + [seg];
      if segs[0] == "" || segs[0] == "." {
        ResolveMore(segs[1..], seg, done);
      } else if segs[0] == ".." {
        var up := done != [] && done[|done| - 1] != "..";
        ResolveMore(segs[1..], seg, if up then done[..|done| - 1] else done);
      } else {
        ResolveMore(segs[1..], seg, done + [segs[0]]);
      }
    }
  }

  lemma ResolveOne(seg: string, done: seq<string>)
    requires AllPlain(done)
    ensures Resolve([seg], true, done) ==
            if seg == "" || seg == "." then done
            else if seg == ".." then (if done == [] then [] else done[..|done| - 1])
            else done + [seg]
  {
    assert [seg][1..] == [];
    assert done != [] ==> Plain(done[|done| - 1]);
  }

  lemma SplitSlash(a: string, seg: string)
    requires '/' !in seg
    ensures Split("/" + (a + "/" + seg), '/') == Split("/" + a, '/') + [seg]
  {
    hide Split, Join;
    var s := "/" + a;
    var parts := Split(s, '/') + [seg];
    JoinSplit(s);
    JoinAppend(Split(s, '/'), [seg], '/');
    JoinOne(seg);
    assert "/" + (a + "/" + seg) == s + ['/'] + seg;
    assert forall i :: 0 <= i < |parts| ==> '/' !in parts[i];
    SplitJoin(parts, '/');
  }

  lemma {:induction false} JoinSplit(s: string)
    ensures Join(Split(s, '/'), '/') == s
  {
    var i := Index(s, '/');
    if i < |s| {
      JoinSplit(s[i + 1..]);
      assert s == s[..i] + ['/'] + s[i + 1..];
    }
  }

  /**
   What normalising does, segment by segment: an empty one or "." changes
   nothing, ".." goes to the parent and stays at the root, and any other name is
   appended.  The empty key is the root.
   */
  lemma SegmentsExactly(key: string, seg: string)
    requires '/' !in seg
    ensures Segments("") == []
    ensures Segments(key + "/" + seg) ==
            if seg == "" || seg == "." then Segments(key)
            else if seg == ".." then (if Segments(key) == [] then [] else Segments(key)[..|Segments(key)| - 1])
            else Segments(key) + [seg]
  {
    hide Resolve, Split;
    SegmentsOfJoined([]);
    CleanKeySegments(key);
    SplitSlash(key, seg);
    ResolveMore(Split("/" + key, '/'), seg, []);
    ResolveOne(seg, Segments(key));
  }

  // Resolving the key printed from plain segments gives them back.
  lemma SegmentsOfJoined(segs: seq<string>)
    requires AllPlain(segs)
    ensures Segments(Join(segs, '/')) == segs
  {
    var k := Join(segs, '/');
    RootedSplit(k);
    if segs == [] {
      assert Split(k, '/') == [""];
      assert Split("/" + k, '/') == ["", ""];
      assert ["", ""][1..] == [""] && [""][1..] == [];
      assert Resolve([""], true, []) == [];
    } else {
      SplitJoin(segs, '/');
      ResolvePlain(segs, true, []);
      assert ([""] + segs)[1..] == segs && [] + segs == segs;
    }
  }

  /** Normalising a key again changes nothing. */
  lemma CleanKeyIdempotent(key: string)
    ensures CleanKey(CleanKey(key)) == CleanKey(key)
    ensures Segments(CleanKey(key)) == Segments(key)
  {
    hide CleanKey, Segments;
    CleanKeySegments(key);
    CleanKeySegments(CleanKey(key));
    SegmentsOfJoined(Segments(key));
  }

  lemma {:induction false} LastSlash(p: string, last: string)
    requires '/' !in last
    ensures AfterLastSlash(p + "/" + last) == |p| + 1
  {
    var s := p + "/" + last;
    if last == "" {
      assert s[|s| - 1] == '/';
    } else {
      var init := last[..|last| - 1];
      assert last == init + [last[|last| - 1]];
      assert s[|s| - 1] == last[|last| - 1];
      assert s[..|s| - 1] == p + "/" + init;
      LastSlash(p, init);
    }
  }

  lemma {:induction false} NoSlash(p: string)
    requires '/' !in p
    ensures AfterLastSlash(p) == 0
  {
    if p != "" {
      NoSlash(p[..|p| - 1]);
    }
  }

  /** Cleaning a path of plain segments, with or without a trailing slash, returns it. */
  lemma CleanJoined(segs: seq<string>)
    requires segs != [] && AllPlain(segs)
    ensures Clean(Join(segs, '/')) == Join(segs, '/')
    ensures Clean(Join(segs, '/') + "/") == Join(segs, '/')
  {
    hide Resolve, Split, Join;
    JoinEnds(segs);
    SplitJoin(segs, '/');
    ResolvePlain(segs, false, []);
    assert [] + segs == segs;
    JoinSlash(segs);
    ResolveEmptyTail(segs, false, []);
  }

  lemma JoinSlash(segs: seq<string>)
    requires segs != [] && AllPlain(segs)
    ensures Split(Join(segs, '/') + "/", '/') == segs + [""]
  {
    hide Split, Join;
    var more := segs + [""];
    JoinAppend(segs, [""], '/');
    JoinOne("");
    assert Join(segs, '/') + ['/'] + "" == Join(segs, '/') + "/";
    assert forall i :: 0 <= i < |more| ==> '/' !in more[i];
    SplitJoin(more, '/');
  }

  lemma DirBaseOf(init: string, last: string)
    requires Plain(last)
    ensures Base(init + "/" + last) == last && Dir(init + "/" + last) == Clean(init + "/")
  {
    hide Clean;
    var s := init + "/" + last;
    LastSlash(init, last);
    assert s[|s| - 1] == last[|last| - 1];
    assert s[..|init| + 1] == init + "/" && s[|init| + 1..] == last;
  }

  lemma DirBaseSingle(last: string)
    requires Plain(last)
    ensures Base(last) == last && Dir(last) == "."
  {
    NoSlash(last);
    assert last[..0] == "" && last[0..] == last;
    assert Split("", '/') == [""];
  }

  lemma JoinOne(s: string)
    ensures Join([s], '/') == s
  {
  }

  lemma PlainSplit(segs: seq<string>)
    requires segs != [] && AllPlain(segs)
    ensures AllPlain(segs[..|segs| - 1]) && Plain(segs[|segs| - 1])
    ensures segs == segs[..|segs| - 1] + [segs[|segs| - 1]]
  {
  }

  /** `Dir` and `Base` take the last plain segment off. */
  lemma DirBaseJoined(segs: seq<string>)
    requires segs != [] && AllPlain(segs)
    ensures var n := |segs| - 1;
            && Base(Join(segs, '/')) == segs[n]
            && Dir(Join(segs, '/')) == if n == 0 then "." else Join(segs[..n], '/')
  {
    hide Dir, Base, Clean, Plain, Join, AllPlain;
    PlainSplit(segs);
    var init, last := segs[..|segs| - 1], segs[|segs| - 1];
    if init == [] {
      JoinLast(init, last);
      DirBaseSingle(last);
    } else {
      DirBaseSnoc(init, last);
    }
  }

  lemma JoinLast(init: seq<string>, last: string)
    requires init == []
    ensures Join(init + [last], '/') == last
  {
    assert init + [last] == [last];
  }

  lemma DirBaseSnoc(init: seq<string>, last: string)
    requires init != [] && AllPlain(init) && Plain(last)
    ensures Base(Join(init + [last], '/')) == last && Dir(Join(init + [last], '/')) == Join(init, '/')
  {
    hide Dir, Base, Clean, Plain, Join, AllPlain;
    var front := Join(init, '/');
    JoinAppend(init, [last], '/');
    JoinOne(last);
    assert front + ['/'] + last == front + "/" + last;
    DirBaseOf(front, last);
    CleanJoined(init);
  }

  lemma StoredNamePlain(t: Stamp, filename: string)
    requires '/' !in filename
    ensures Plain(StoredName(t, filename))
  {
    assert '_' in StoredName(t, filename) by {
      assert StoredName(t, filename)[16] == '_';
    }
  }

  /**
   Rotation lists the directory the upload landed in: for every key, the storage
   path is that directory and the stored name, and the key need not be
   normalised first.
   */
  lemma RotationSeesUpload(key: string, t: Stamp)
    ensures RotationDir(CleanKey(key)) == RotationDir(key)
    ensures Dir(StoragePath(key, t)) == RotationDir(key)
    ensures Base(StoragePath(key, t)) == StoredName(t, Base(CleanKey(key)))
  {
    hide Dir, Base, Clean, Plain, Join, CleanKey, Segments;
    CleanKeyIdempotent(key);
    CleanKeySegments(key);
    StoredUnder(Segments(key), t);
  }

  // The storage path of a cleaned key, by its segments.
  lemma StoredUnder(segs: seq<string>, t: Stamp)
    requires AllPlain(segs)
    ensures var k := Join(segs, '/');
            var name := StoredName(t, Base(k));
            var path := if Dir(k) == "." then name else Clean(Dir(k) + "/" + name);
            Dir(path) == Dir(k) && Base(path) == name
  {
    hide Dir, Base, Clean, Plain, Join, StoredName;
    if segs == [] {
      RootDirBase();
      StoredNamePlain(t, ".");
      DirBaseSingle(StoredName(t, "."));
    } else {
      var n := |segs| - 1;
      DirBaseJoined(segs);
      PlainNoSlash(segs[n]);
      var name := StoredName(t, segs[n]);
      StoredNamePlain(t, segs[n]);
      if n == 0 {
        DirBaseSingle(name);
      } else {
        var stored := segs[..n] + [name];
        assert stored[..n] == segs[..n];
        DirBaseJoined(stored);
        DirIsNotDot(segs[..n]);
        JoinAppend(segs[..n], [name], '/');
        JoinOne(name);
        CleanJoined(stored);
      }
    }
  }

  lemma RootDirBase()
    ensures Join([], '/') == "" && Dir("") == "." && Base("") == "."
  {
    assert Split("", '/') == [""];
  }

  lemma PlainNoSlash(seg: string)
    requires Plain(seg)
    ensures '/' !in seg
  {
  }

  lemma DirIsNotDot(segs: seq<string>)
    requires segs != [] && AllPlain(segs)
    ensures Join(segs, '/') != "."
  {
    assert Plain(segs[0]);
    if |segs| > 1 {
      JoinEnds(segs[1..]);
    }
  }
}
