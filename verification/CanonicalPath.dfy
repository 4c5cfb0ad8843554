/** Path canonicalisation: the meaning of a path as a stack of components, and the backward scan of
    `vfs_canonicize_path`, which finds the same components from right to left with a counter. */
module CanonicalPath {

  const SLASH: char := '/'

  predicate NoSlash(s: string) { SLASH !in s }

  /** The pieces of a string between its slashes.  There is always at least one. */
  function Split(s: string): (r: seq<string>)
    ensures |r| > 0
    decreases |s|
  {
    var i := LastSlash(s);
    if i == 0 then [s] else Split(s[..i - 1]) + [s[i..]]
  }

  /** One past the last slash, or 0. */
  function LastSlash(s: string): (i: nat)
    ensures i <= |s| && NoSlash(s[i..])
    ensures i > 0 ==> s[i - 1] == SLASH
  {
    if s == [] then 0
    else if s[|s| - 1] == SLASH then |s|
    else
      var i := LastSlash(s[..|s| - 1]);
      assert s[i..] == s[..|s| - 1][i..] + [s[|s| - 1]];
      i
  }

  /** The components of a path: the piece before the first slash is not one. */
  function Components(s: string): seq<string> { Split(s)[1..] }

  predicate Ignored(c: string) { c == "" || c == "." }

  /** A component that names a directory entry. */
  predicate Proper(c: string) { NoSlash(c) && !Ignored(c) && c != ".." }

  /** The path from the root after following one more component: ".." leads to the parent, and
      from the root to the root. */
  function Follow(at: seq<string>, c: string): seq<string> {
    if Ignored(c) then at
    else if c == ".." then (if at == [] then [] else at[..|at| - 1])
    else at + [c]
  }

  /** Following components from left to right. */
  function Resolve(at: seq<string>, cs: seq<string>): seq<string> {
    if cs == [] then at else Follow(Resolve(at, cs[..|cs| - 1]), cs[|cs| - 1])
  }

  function Slashed(cs: seq<string>): string {
    if cs == [] then "" else Slashed(cs[..|cs| - 1]) + [SLASH] + cs[|cs| - 1]
  }

  function Print(cs: seq<string>): string { if cs == [] then [SLASH] else Slashed(cs) }

  /** What the canonical form of an absolute path is. */
  function Canonical(s: string): string { Print(Resolve([], Components(s))) }

  // ---------- the backward scan ----------

  /** From right to left, where `skip` proper components are still to be passed over. */
  function Backward(cs: seq<string>, skip: nat): seq<string> {
    if cs == [] then []
    else
      var rest, c := cs[..|cs| - 1], cs[|cs| - 1];
      if Ignored(c) then Backward(rest, skip)
      else if c == ".." then Backward(rest, skip + 1)
      else if skip > 0 then Backward(rest, skip - 1)
      else Backward(rest, 0) + [c]
  }

  /** Scanning backward with `skip` gives the forward result without its last `skip` components. */
  lemma {:induction false} BackwardIsResolve(cs: seq<string>, skip: nat)
    ensures var at := Resolve([], cs);
            Backward(cs, skip) == if skip <= |at| then at[..|at| - skip] else []
  {
    if cs != [] {
      var rest, c := cs[..|cs| - 1], cs[|cs| - 1];
      var at := Resolve([], rest);
      if Ignored(c) {
        BackwardIsResolve(rest, skip);
      } else if c == ".." {
        BackwardIsResolve(rest, skip + 1);
        if at != [] && skip < |at| { assert at[..|at| - 1][..|at| - 1 - skip] == at[..|at| - 1 - skip]; }
      } else if skip > 0 {
        BackwardIsResolve(rest, skip - 1);
        if skip - 1 <= |at| { assert (at + [c])[..|at| + 1 - skip] == at[..|at| - (skip - 1)]; }
      } else {
        BackwardIsResolve(rest, 0);
        assert at[..|at|] == at && (at + [c])[..|at| + 1] == at + [c];
      }
    }
  }

  // ---------- splitting and printing ----------

  lemma SlashAfter(s: string, i: nat, k: int)
    ensures i <= k < |s| && s[k] == SLASH ==> !NoSlash(s[i..])
  {
    if i <= k < |s| { assert s[i..][k - i] == s[k]; }
  }

  lemma LastSlashIs(s: string, i: nat)
    requires i <= |s| && NoSlash(s[i..]) && (i > 0 ==> s[i - 1] == SLASH)
    ensures LastSlash(s) == i
  {
    var k: int := LastSlash(s);
    SlashAfter(s, i, k - 1);
    SlashAfter(s, k, i - 1);
  }

  lemma SplitLast(s: string, c: string)
    requires NoSlash(c)
    ensures Split(s + [SLASH] + c) == Split(s) + [c]
  {
    var t := s + [SLASH] + c;
    assert t[|s| + 1..] == c && t[..|s|] == s;
    LastSlashIs(t, |s| + 1);
  }

  /** Splitting a join of two strings with a slash splits them separately. */
  lemma {:induction false} SplitJoin(s: string, t: string)
    ensures Split(s + [SLASH] + t) == Split(s) + Split(t)
    decreases |t|
  {
    var i := LastSlash(t);
    if i == 0 {
      assert t[0..] == t;
      SplitLast(s, t);
    } else {
      SplitJoin(s, t[..i - 1]);
      assert s + [SLASH] + t == (s + [SLASH] + t[..i - 1]) + [SLASH] + t[i..];
      SplitLast(s + [SLASH] + t[..i - 1], t[i..]);
      assert Split(s) + (Split(t[..i - 1]) + [t[i..]]) == (Split(s) + Split(t[..i - 1])) + [t[i..]];
    }
  }

  lemma {:induction false} SplitPieces(s: string)
    ensures forall c <- Split(s) :: NoSlash(c)
    decreases |s|
  {
    if LastSlash(s) == 0 { assert s[0..] == s; } else { SplitPieces(s[..LastSlash(s) - 1]); }
  }

  /** A printed component list splits back into its components. */
  lemma {:induction false} SplitSlashed(cs: seq<string>)
    requires forall c <- cs :: NoSlash(c)
    ensures Split(Slashed(cs)) == [""] + cs
  {
    if cs != [] {
      SplitSlashed(cs[..|cs| - 1]);
      SplitLast(Slashed(cs[..|cs| - 1]), cs[|cs| - 1]);
      assert [""] + cs == ([""] + cs[..|cs| - 1]) + [cs[|cs| - 1]];
    }
  }

  lemma {:induction false} ResolveIsProper(at: seq<string>, cs: seq<string>)
    requires (forall c <- at :: Proper(c)) && forall c <- cs :: NoSlash(c)
    ensures forall c <- Resolve(at, cs) :: Proper(c)
  {
    if cs != [] { ResolveIsProper(at, cs[..|cs| - 1]); }
  }

  lemma {:induction false} ResolveProper(at: seq<string>, cs: seq<string>)
    requires forall c <- cs :: Proper(c)
    ensures Resolve(at, cs) == at + cs
  {
    if cs == [] {
      assert at + cs == at;
    } else {
      assert Proper(cs[|cs| - 1]);
      ResolveProper(at, cs[..|cs| - 1]);
      assert at + cs == (at + cs[..|cs| - 1]) + [cs[|cs| - 1]];
    }
  }

  lemma {:induction false} ResolveConcat(at: seq<string>, cs: seq<string>, ds: seq<string>)
    ensures Resolve(at, cs + ds) == Resolve(Resolve(at, cs), ds)
  {
    if ds == [] {
      assert cs + ds == cs;
    } else {
      ResolveConcat(at, cs, ds[..|ds| - 1]);
      assert (cs + ds)[..|cs + ds| - 1] == cs + ds[..|ds| - 1];
    }
  }

  // ---------- counting slashes ----------

  function Slashes(s: string): nat {
    if s == [] then 0 else Slashes(s[..|s| - 1]) + if s[|s| - 1] == SLASH then 1 else 0
  }

  lemma {:induction false} NoSlashes(s: string)
    requires NoSlash(s)
    ensures Slashes(s) == 0
  {
    if s != [] {
      assert s[|s| - 1] in s;
      NoSlashes(s[..|s| - 1]);
    }
  }

  lemma {:induction false} SlashesConcat(s: string, t: string)
    ensures Slashes(s + t) == Slashes(s) + Slashes(t)
  {
    if t == [] {
      assert s + t == s;
    } else {
      SlashesConcat(s, t[..|t| - 1]);
      assert (s + t)[..|s + t| - 1] == s + t[..|t| - 1];
    }
  }

  lemma {:induction false} SomeSlash(s: string)
    requires Slashes(s) == 0
    ensures NoSlash(s)
  {
    if s != [] {
      SomeSlash(s[..|s| - 1]);
      assert s == s[..|s| - 1] + [s[|s| - 1]];
    }
  }

  // ---------- what the canonical form promises ----------

  /** The shape of a canonical path: it starts with a slash, and it is the root or every component
      is proper, so that no slash is doubled and none is at the end. */
  predicate IsCanonical(s: string) {
    && s != "" && s[0] == SLASH
    && (s == [SLASH] || forall c <- Components(s) :: Proper(c))
  }

  lemma {:induction false} SlashedStarts(cs: seq<string>)
    requires cs != []
    ensures Slashed(cs) != "" && Slashed(cs)[0] == SLASH
  {
    if |cs| > 1 { SlashedStarts(cs[..|cs| - 1]); }
  }

  /** The components of a printed path. */
  lemma PrintedComponents(cs: seq<string>)
    requires forall c <- cs :: Proper(c)
    ensures Print(cs) != "" && Print(cs)[0] == SLASH
    ensures Components(Print(cs)) == if cs == [] then [""] else cs
    ensures Resolve([], Components(Print(cs))) == cs
  {
    if cs == [] {
      SplitLast("", "");
      assert "" + [SLASH] + "" == [SLASH];
      assert Split("") == [""];
      assert Components([SLASH]) == [""];
      assert Resolve([], [""]) == Follow(Resolve([], []), "");
    } else {
      SlashedStarts(cs);
      SplitSlashed(cs);
      ResolveProper([], cs);
    }
  }

  /** The result is canonical, canonicalising it again changes nothing, and every canonical path is
      its own canonical form. */
  lemma CanonicalIsCanonical(s: string)
    ensures IsCanonical(Canonical(s))
    ensures Canonical(Canonical(s)) == Canonical(s)
    ensures IsCanonical(s) ==> Canonical(s) == s
  {
    SplitPieces(s);
    ResolveIsProper([], Components(s));
    PrintedComponents(Resolve([], Components(s)));
    if IsCanonical(s) { CanonicalFixed(s); }
  }

  lemma CanonicalFixed(s: string)
    requires IsCanonical(s)
    ensures Canonical(s) == s
  {
    if s == [SLASH] {
      PrintedComponents([]);
    } else {
      ResolveProper([], Components(s));
      UnsplitAbsolute(s);
      assert [] + Components(s) == Components(s) != [];
    }
  }

  lemma {:induction false} UnsplitAbsolute(s: string)
    requires s != "" && s[0] == SLASH
    ensures Split(s)[0] == "" && Slashed(Components(s)) == s
    decreases |s|
  {
    var i := LastSlash(s);
    SlashAfter(s, 0, 0);
    var t := s[..i - 1];
    assert s == t + [SLASH] + s[i..];
    if t == "" {
      assert Split(t) == [""];
      assert Components(s) == [s[i..]];
      assert Slashed([s[i..]]) == Slashed([]) + [SLASH] + s[i..];
    } else {
      UnsplitAbsolute(t);
      assert Components(s) == Components(t) + [s[i..]];
      assert (Components(t) + [s[i..]])[..|Components(t)|] == Components(t);
    }
  }

  /** A relative path is followed from where the working directory leads. */
  lemma RelativeResolves(cwd: string, path: string)
    ensures Canonical(cwd + [SLASH] + path) == Print(Resolve(Resolve([], Components(cwd)), Split(path)))
  {
    hide Split, Resolve, Print;
    SplitJoin(cwd, path);
    assert Components(cwd + [SLASH] + path) == Components(cwd) + Split(path);
    ResolveConcat([], Components(cwd), Split(path));
  }

  /** ".." undoes a proper component, wherever it is written. */
  lemma ParentUndoes(at: seq<string>, c: string, rest: seq<string>)
    requires Proper(c)
    ensures Resolve(at, [c, ".."] + rest) == Resolve(at, rest)
  {
    ResolveConcat(at, [c, ".."], rest);
    assert [c, ".."][..1] == [c] && [c][..0] == [];
    assert Resolve(at, [c]) == Follow(Resolve(at, []), c);
    assert (at + [c])[..|at|] == at;
  }
}
