/** `vfs_canonicize_path` on its two character buffers. */
module CanonicalPathCode {
  import opened Basics
  import opened CanonicalPath
  import Format
  import FormatCode
  import Numerals

  /** The buffer holds the string `s`, terminated, from index `at`. */
  ghost predicate Holds(buf: seq<char>, at: nat, s: string) {
    at + |s| < |buf| && buf[at..at + |s|] == s && buf[at + |s|] == NUL && NUL !in s
  }

  lemma CharAt(buf: seq<char>, at: nat, s: string, i: nat)
    requires Holds(buf, at, s) && i <= |s|
    ensures at + i < |buf| && (buf[at + i] == NUL <==> i == |s|) && (i < |s| ==> buf[at + i] == s[i])
  {
    if i < |s| { assert buf[at..at + |s|][i] == s[i]; }
  }

  method StrLen(buf: array<char>, at: nat, ghost s: string) returns (n: nat)
    requires Holds(buf[..], at, s)
    ensures n == |s|
  {
    n := 0;
    CharAt(buf[..], at, s, 0);
    while buf[at + n] != NUL
      invariant n <= |s| && (buf[at + n] == NUL <==> n == |s|)
      decreases |s| - n
    {
      n := n + 1;
      CharAt(buf[..], at, s, n);
    }
  }

  /** `strcmp` against a constant */
  method StrEq(buf: array<char>, at: nat, t: string, ghost s: string) returns (eq: bool)
    requires Holds(buf[..], at, s) && NUL !in t
    ensures eq == (s == t)
  {
    var i := 0;
    CharAt(buf[..], at, s, 0);
    while i < |t| && buf[at + i] == t[i]
      invariant i <= |t| && i <= |s| && t[..i] == s[..i]
      invariant (buf[at + i] == NUL <==> i == |s|) && (i < |s| ==> buf[at + i] == s[i])
    {
      i := i + 1;
      CharAt(buf[..], at, s, i);
    }
    eq := i == |t| && buf[at + i] == NUL;
  }

  function Absolute(path: string, cwd: string): string {
    if path != "" && path[0] == SLASH then path else cwd + [SLASH] + path
  }

  /** A copy of an absolute path, or `snprintf` of "%s/%s". */
  method JoinPath(path: string, cwd: string) returns (abs: array<char>)
    requires NUL !in path && NUL !in cwd
    requires (path != "" && path[0] == SLASH) || (|path| <= Numerals.SIZE && |cwd| <= Numerals.SIZE)
    ensures fresh(abs) && abs.Length > |Absolute(path, cwd)| && Holds(abs[..], 0, Absolute(path, cwd))
  {
    hide Format.Render;
    if path == "" || path[0] != SLASH {
      var size := |path| + |cwd| + 2;
      abs := new char[size](_ => NUL);
      Format.PathJoin(cwd, path);
      var _ := FormatCode.Vsnprintf(abs, size, "%s/%s", [Format.Text(cwd), Format.Text(path)]);
      assert abs[..][0..|cwd + [SLASH] + path|] == cwd + [SLASH] + path;
    } else {
      abs := new char[|path| + 1](i requires 0 <= i <= |path| => if i < |path| then path[i] else NUL);
      assert abs[..][0..|path|] == path;
    }
  }

  // ---------- one component ----------

  lemma {:induction false} SlashedFront(c: string, cs: seq<string>)
    ensures Slashed([c] + cs) == [SLASH] + c + Slashed(cs)
  {
    if cs == [] {
      assert [c] + cs == [c];
      assert Slashed([c]) == Slashed([]) + [SLASH] + c;
    } else {
      SlashedFront(c, cs[..|cs| - 1]);
      assert ([c] + cs)[..|cs|] == [c] + cs[..|cs| - 1];
      var front, last := Slashed(cs[..|cs| - 1]), cs[|cs| - 1];
      assert ([SLASH] + c + front) + [SLASH] + last == [SLASH] + c + (front + [SLASH] + last);
    }
  }

  /** The component between a slash and the next one is the last of the text before it. */
  lemma LastComponent(s: string, p: nat, q: nat, skip: nat)
    requires p < q <= |s| && s[p] == SLASH && NoSlash(s[p + 1..q])
    ensures Components(s[..q]) == Components(s[..p]) + [s[p + 1..q]]
    ensures var c := s[p + 1..q];
            Backward(Components(s[..q]), skip)
            == if Ignored(c) then Backward(Components(s[..p]), skip)
               else if c == ".." then Backward(Components(s[..p]), skip + 1)
               else if skip > 0 then Backward(Components(s[..p]), skip - 1)
               else Backward(Components(s[..p]), 0) + [c]
  {
    var c := s[p + 1..q];
    assert s[..q] == s[..p] + [SLASH] + c;
    SplitLast(s[..p], c);
    assert (Components(s[..p]) + [c])[..|Components(s[..p])|] == Components(s[..p]);
  }

  lemma NoComponent(s: string)
    requires NoSlash(s)
    ensures Components(s) == []
  {
    assert s[0..] == s;
    LastSlashIs(s, 0);
  }

  /** Copies the string at `dir` in front of the output, and a slash in front of that. */
  method PushFront(abs: array<char>, dir: nat, out: array<char>, nptr: nat, ghost c: string, ghost t: string)
    returns (nptr': nat)
    requires abs != out && Holds(abs[..], dir, c) && Holds(out[..], nptr, t) && nptr > |c|
    modifies out
    ensures nptr' == nptr - |c| - 1 && Holds(out[..], nptr', [SLASH] + c + t)
  {
    var dirLen := StrLen(abs, dir, c);
    nptr' := nptr - dirLen;
    ghost var before, text := out[..], abs[..];
    forall i | 0 <= i < dirLen { out[nptr' + i] := abs[dir + i]; }
    nptr' := nptr' - 1;
    out[nptr'] := SLASH;
    forall i | 0 <= i < |c| ensures out[nptr - |c| + i] == c[i] { CharAt(text, dir, c, i); }
    PushedFront(before, out[..], nptr, c, t);
  }

  lemma PushedFront(before: seq<char>, after: seq<char>, nptr: nat, c: string, t: string)
    requires Holds(before, nptr, t) && nptr > |c| && NUL !in c && |after| == |before|
    requires forall i | nptr <= i < |after| :: after[i] == before[i]
    requires forall i | 0 <= i < |c| :: after[nptr - |c| + i] == c[i]
    requires after[nptr - |c| - 1] == SLASH
    ensures Holds(after, nptr - |c| - 1, [SLASH] + c + t)
  {
    var p := nptr - |c| - 1;
    assert after[p..p + 1] == [SLASH] && after[p + 1..nptr] == c && after[nptr..nptr + |t|] == before[nptr..nptr + |t|];
    assert after[p..nptr + |t|] == after[p..p + 1] + after[p + 1..nptr] + after[nptr..nptr + |t|];
  }

  // ---------- the whole scan ----------

  /** The text before `ptr` is untouched, and the text from `ptr` to the last slash passed, at `q`,
      is a terminated string. */
  ghost predicate Scanned(buf: seq<char>, s: string, ptr: nat, q: nat) {
    && ptr <= q <= |s| < |buf| && buf[..ptr] == s[..ptr]
    && NoSlash(s[ptr..q]) && Holds(buf, ptr, s[ptr..q])
  }

  /** What is still to be found is in front of what has been written. */
  ghost predicate Written(buf: seq<char>, nptr: nat, s: string, q: nat, skip: nat, out: seq<string>) {
    && q <= nptr && nptr + |Slashed(out)| == |s| && |buf| == |s| + 1 && Holds(buf, nptr, Slashed(out))
    && q <= |s| && Backward(Components(s), 0) == Backward(Components(s[..q]), skip) + out
  }

  lemma ScanBack(buf: seq<char>, s: string, ptr: nat, q: nat)
    requires Scanned(buf, s, ptr + 1, q) && s[ptr] != SLASH && NUL !in s
    ensures Scanned(buf, s, ptr, q)
  {
    assert s[ptr..q] == [s[ptr]] + s[ptr + 1..q];
    assert buf[..ptr + 1][ptr] == s[ptr];
    assert buf[ptr..q] == [buf[ptr]] + buf[ptr + 1..q];
    assert buf[..ptr] == buf[..ptr + 1][..ptr] && s[..ptr] == s[..ptr + 1][..ptr];
  }

  lemma ScanSlash(buf: seq<char>, s: string, ptr: nat, q: nat)
    requires Scanned(buf, s, ptr + 1, q)
    ensures Scanned(buf[ptr := NUL], s, ptr, ptr)
    ensures Holds(buf[ptr := NUL], ptr + 1, s[ptr + 1..q])
  {
    assert buf[..ptr] == buf[..ptr + 1][..ptr] && s[..ptr] == s[..ptr + 1][..ptr];
    assert buf[ptr := NUL][ptr + 1..q] == buf[ptr + 1..q];
  }

  /** Takes the component `dir` of the path just passed. */
  method TakeComponent(abs: array<char>, dir: nat, out: array<char>, nptr: nat, skip: nat,
                       ghost s: string, ghost q: nat, ghost written: seq<string>)
    returns (nptr': nat, skip': nat, ghost written': seq<string>)
    requires abs != out && 0 < dir <= q <= |s| && s[dir - 1] == SLASH && NoSlash(s[dir..q]) && Holds(abs[..], dir, s[dir..q])
    requires Written(out[..], nptr, s, q, skip, written)
    modifies out
    ensures Written(out[..], nptr', s, dir - 1, skip', written')
  {
    hide Backward, Components, Slashed;
    ghost var c := s[dir..q];
    LastComponent(s, dir - 1, q, skip);
    nptr', skip', written' := nptr, skip, written;
    var empty := StrEq(abs, dir, "", c);
    if empty { return; }
    var dot := StrEq(abs, dir, ".", c);
    if dot { return; }
    var dotDot := StrEq(abs, dir, "..", c);
    if dotDot {
      skip' := skip + 1;
      return;
    }
    if skip != 0 {
      skip' := skip - 1;
      return;
    }
    nptr' := PushFront(abs, dir, out, nptr, c, Slashed(written));
    written' := [c] + written;
    SlashedFront(c, written);
    assert Backward(Components(s[..dir - 1]), 0) + [c] + written == Backward(Components(s[..dir - 1]), 0) + ([c] + written);
  }

  /** `vfs_canonicize_path`: the new string is the canonical form of the absolute path, within a
      buffer of the absolute path's size. */
  method Canonicize(path: string, cwd: string) returns (newPath: array<char>)
    requires NUL !in path && NUL !in cwd
    requires (path != "" && path[0] == SLASH) || (|path| <= Numerals.SIZE && |cwd| <= Numerals.SIZE)
    ensures fresh(newPath) && newPath.Length == |Absolute(path, cwd)| + 1
    ensures Holds(newPath[..], 0, Canonical(Absolute(path, cwd)))
  {
    hide Backward, Components, Slashed, Resolve;
    var abs := JoinPath(path, cwd);
    ghost var s := Absolute(path, cwd);
    var pathLen := StrLen(abs, 0, s);
    newPath := new char[pathLen + 1];
    var nptr, skip := pathLen, 0;
    newPath[nptr] := NUL;
    ghost var q, written: seq<string> := pathLen, [];
    assert s[..q] == s && abs[..][..q] == s && s[q..q] == "";
    EmptySlashed();
    for ptr := pathLen downto 0
      invariant newPath.Length == pathLen + 1 && fresh(newPath) && fresh(abs) && newPath != abs
      invariant Scanned(abs[..], s, ptr, q)
      invariant Written(newPath[..], nptr, s, q, skip, written)
    {
      assert abs[..][..ptr + 1][ptr] == s[..ptr + 1][ptr];
      if abs[ptr] != SLASH {
        ScanBack(abs[..], s, ptr, q);
        continue;
      }
      ScanSlash(abs[..], s, ptr, q);
      ghost var buf := abs[..];
      abs[ptr] := NUL;
      assert abs[..] == buf[ptr := NUL];
      nptr, skip, written := TakeComponent(abs, ptr + 1, newPath, nptr, skip, s, q, written);
      q := ptr;
    }
    NoComponent(s[..q]);
    BackwardIsResolve(Components(s), 0);
    nptr := Finish(newPath, nptr, s, q, skip, written);
  }

  lemma EmptySlashed()
    ensures Slashed([]) == "" && forall skip: nat :: Backward([], skip) == []
  {
  }

  /** Adds the slash of the root if there is nothing else, and moves the string to the front. */
  method Finish(newPath: array<char>, nptr: nat, ghost s: string, ghost q: nat, ghost skip: nat, ghost written: seq<string>)
    returns (nptr': nat)
    requires s != "" && Written(newPath[..], nptr, s, q, skip, written) && Components(s[..q]) == []
    requires Backward(Components(s), 0) == Resolve([], Components(s))
    modifies newPath
    ensures Holds(newPath[..], 0, Canonical(s))
  {
    hide Components, Resolve;
    EmptySlashed();
    nptr' := nptr;
    if written != [] { SlashedStarts(written); }
    ghost var t := Slashed(written);
    assert t != "" ==> newPath[..][nptr..nptr + |t|][0] == t[0];
    if newPath[nptr'] == NUL {
      nptr' := nptr' - 1;
      newPath[nptr'] := SLASH;
    }
    ghost var r := Print(written);
    assert [] + written == written;
    assert newPath[..][nptr'..nptr' + |r|] == r;
    MoveToFront(newPath, nptr', r);
  }

  /** `memmove(buf, buf + from, strlen(buf + from) + 1)` */
  method MoveToFront(buf: array<char>, from: nat, ghost s: string)
    requires Holds(buf[..], from, s)
    modifies buf
    ensures Holds(buf[..], 0, s)
  {
    var n := StrLen(buf, from, s);
    ghost var before := buf[..];
    forall i | 0 <= i <= n { buf[i] := buf[from + i]; }
    forall i | 0 <= i <= |s| ensures buf[i] == if i < |s| then s[i] else NUL { CharAt(before, from, s, i); }
    assert buf[..][0..|s|] == s;
  }
}
