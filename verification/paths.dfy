/** The parts of a POSIX `pathlib` path the services look at: the name (the
    last component), and that name's suffix and stem. */
module Paths {
  import opened Common

  /** The position just after the last '/' of `s`; 0 when `s` has none. */
  function AfterLastSlash(s: string): (i: nat)
    ensures i <= |s|
    ensures forall j :: i <= j < |s| ==> s[j] != '/'
    ensures i > 0 ==> s[i - 1] == '/'
    decreases |s|
  {
    if |s| == 0 then 0
    else if s[|s| - 1] == '/' then |s|
    else AfterLastSlash(s[..|s| - 1])
  }

  /** The components of `s` between its '/' separators, empty ones included:
      `s.split('/')`. */
  function Segments(s: string): (segs: seq<string>)
    ensures |segs| >= 1
    ensures forall k :: 0 <= k < |segs| ==> '/' !in segs[k]
    decreases |s|
  {
    var i := AfterLastSlash(s);
    if i == 0 then [s] else Segments(s[..i - 1]) + [s[i..]]
  }

  /** `'/'.join(segs)` */
  function Join(segs: seq<string>): string
    decreases |segs|
  {
    if |segs| == 0 then ""
    else if |segs| == 1 then segs[0]
    else Join(segs[..|segs| - 1]) + "/" + segs[|segs| - 1]
  }

  /** Splitting at the separators and joining again gives the path back. */
  lemma {:induction false} JoinSegments(s: string)
    ensures Join(Segments(s)) == s
    decreases |s|
  {
    var i := AfterLastSlash(s);
    if i > 0 {
      var init := Segments(s[..i - 1]);
      JoinSegments(s[..i - 1]);
      assert Segments(s)[..|Segments(s)| - 1] == init;
      assert s == s[..i - 1] + "/" + s[i..];
    }
  }

  /** A component `pathlib` keeps: neither empty nor ".". */
  predicate Proper(seg: string) {
    seg != "" && seg != "."
  }

  /** `PurePosixPath(s).name`: the last component once the empty components
      left by repeated or trailing '/' and the "." components are dropped;
      "" when none is left. */
  function Name(s: string): (r: string)
    ensures '/' !in r && r != "."
    ensures |r| <= |s|
    decreases |s|
  {
    var i := AfterLastSlash(s);
    var last := s[i..];
    if last != "" && last != "." then last
    else if i == 0 then ""
    else Name(s[..i - 1])
  }

  predicate NoProperSegment(segs: seq<string>) {
    forall k :: 0 <= k < |segs| ==> !Proper(segs[k])
  }

  /** `segs[k]` is proper and only improper components follow it. */
  predicate LastProperAt(segs: seq<string>, k: int) {
    0 <= k < |segs| && Proper(segs[k]) && forall j :: k < j < |segs| ==> !Proper(segs[j])
  }

  /** The name is the last proper component: "" exactly when there is none,
      otherwise a component of `s` after which only empty and "." components
      follow. */
  lemma {:induction false} NameIsLastProperSegment(s: string)
    ensures Name(s) == "" <==> NoProperSegment(Segments(s))
    ensures Name(s) != "" ==> exists k :: LastProperAt(Segments(s), k) && Segments(s)[k] == Name(s)
    decreases |s|
  {
    var i := AfterLastSlash(s);
    var last := s[i..];
    var segs := Segments(s);
    assert segs[|segs| - 1] == last;
    if Proper(last) {
      assert LastProperAt(segs, |segs| - 1);
    } else if i > 0 {
      var init := Segments(s[..i - 1]);
      assert segs == init + [last];
      assert forall k :: 0 <= k < |init| ==> segs[k] == init[k];
      NameIsLastProperSegment(s[..i - 1]);
      assert Name(s) == Name(s[..i - 1]);
      assert NoProperSegment(segs) <==> NoProperSegment(init);
      if Name(s) != "" {
        var k :| LastProperAt(init, k) && init[k] == Name(s);
        assert LastProperAt(segs, k);
      }
    }
  }

  /** A plain file name is its own name, below any directory too. */
  lemma NameOfChild(dir: string, n: string)
    requires n != "" && n != "." && '/' !in n
    ensures Name(n) == n
    ensures Name(dir + "/" + n) == n
  {
    assert n[AfterLastSlash(n)..] == n;
    var s := dir + "/" + n;
    var i := AfterLastSlash(s);
    assert s[|dir|] == '/';
    assert forall j :: |dir| < j < |s| ==> s[j] == n[j - |dir| - 1];
    assert i == |dir| + 1;
    assert s[i..] == n;
  }

  lemma {:induction false} AfterLastSlashAppend(p: string, t: string)
    requires '/' !in t
    ensures AfterLastSlash(p + t) == AfterLastSlash(p)
    decreases |t|
  {
    if t == [] {
      assert p + t == p;
    } else {
      var pt := p + t;
      assert pt[|pt| - 1] == t[|t| - 1];
      assert pt[..|pt| - 1] == p + t[..|t| - 1];
      AfterLastSlashAppend(p, t[..|t| - 1]);
    }
  }

  /** A path ending in a separator-free tail `t` that is a component of its
      own is named by `t` together with what precedes it after the last
      '/'. */
  lemma NameOfTail(p: string, t: string)
    requires '/' !in t && Proper(t)
    ensures Name(p + t) == p[AfterLastSlash(p)..] + t
  {
    AfterLastSlashAppend(p, t);
    var i := AfterLastSlash(p);
    assert (p + t)[i..] == p[i..] + t;
    assert |p[i..] + t| >= |t|;
  }

  /** Trailing separators do not change the name. */
  lemma NameIgnoresTrailingSlash(s: string)
    ensures Name(s + "/") == Name(s)
  {
    var t := s + "/";
    assert AfterLastSlash(t) == |t|;
    assert t[..|t| - 1] == s;
  }

  /** `name.rfind('.')`, with `None` for -1. */
  function LastDot(name: string): (r: Option<nat>)
    ensures r.None? <==> '.' !in name
    ensures r.Some? ==> r.value < |name| && name[r.value] == '.' && '.' !in name[r.value + 1..]
    decreases |name|
  {
    if |name| == 0 then None
    else if name[|name| - 1] == '.' then Some(|name| - 1)
    else
      var r := LastDot(name[..|name| - 1]);
      assert name[..|name| - 1] + [name[|name| - 1]] == name;
      r
  }

  /** A name has a suffix when its last '.' is neither its first nor its last
      character: ".bashrc" and "scan." have none. */
  predicate HasSuffix(name: string) {
    LastDot(name).Some? && 0 < LastDot(name).value < |name| - 1
  }

  /** `PurePath.suffix` of a path whose name is `name`: from the last '.' on. */
  function Suffix(name: string): (r: string)
    ensures r == "" <==> !HasSuffix(name)
    ensures r != "" ==> 2 <= |r| && r[0] == '.' && '.' !in r[1..]
  {
    if HasSuffix(name) then
      var i := LastDot(name).value;
      assert name[i..][1..] == name[i + 1..];
      name[i..]
    else ""
  }

  /** `PurePath.stem` of a path whose name is `name`: what precedes the suffix. */
  function Stem(name: string): (r: string)
    ensures r + Suffix(name) == name
    ensures r == "" <==> name == ""
  {
    if HasSuffix(name) then name[..LastDot(name).value] else name
  }

  /** A suffix is a '.' and at least one character that is neither '.' nor '/'. */
  predicate IsSuffixShape(ext: string) {
    2 <= |ext| && ext[0] == '.' && '.' !in ext[1..] && '/' !in ext
  }

  /** A name built as a non-empty base followed by a suffix splits back into
      that base and that suffix. */
  lemma {:induction false} SplitName(base: string, ext: string)
    requires base != "" && '/' !in base
    requires IsSuffixShape(ext)
    ensures Name(base + ext) == base + ext
    ensures Suffix(base + ext) == ext
    ensures Stem(base + ext) == base
  {
    var n := base + ext;
    assert '/' !in n by {
      assert forall j :: 0 <= j < |n| ==> n[j] == (if j < |base| then base[j] else ext[j - |base|]);
    }
    assert n != "." by {
      assert |n| >= 3;
    }
    NameOfChild("", n);
    var d := LastDot(n);
    assert n[|base|] == '.';
    var v := d.value;
    assert v == |base|;
    assert n[v..] == ext && n[..v] == base;
  }

  /** `Path(filename).suffix.lower()`: the lower-cased suffix of the name,
      with its dot. */
  function LowerSuffix(filename: string): string {
    Lower(Suffix(Name(filename)))
  }
}
