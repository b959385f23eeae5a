// File_MakeAbsoluteName of src/file.c: a pass over a path name that copies its components to a
// buffer, drops ".", and takes the last component back out of the buffer on "..".
module PathName {
  const PATHSEP: char := '/'
  const NUL: char := '\0'

  // ----- path names as components -----

  // Where the first separator is, or the length when there is none.
  function FirstSlash(s: string): (k: nat)
    ensures k <= |s| && PATHSEP !in s[..k] && (k < |s| ==> s[k] == PATHSEP)
  {
    if s == [] || s[0] == PATHSEP then 0 else 1 + FirstSlash(s[1..])
  }

  // The components of a path name: one more than it has separators.
  function Split(s: string): (c: seq<string>)
    ensures c != []
    decreases |s|
  {
    var k := FirstSlash(s);
    if k == |s| then [s] else [s[..k]] + Split(s[k + 1..])
  }

  // One component on a stack of components.
  function Apply(stack: seq<string>, c: string): seq<string> {
    if c == "." then stack
    else if c == ".." then (if stack == [] then [] else stack[..|stack| - 1])
    else stack + [c]
  }

  function Fold(stack: seq<string>, cs: seq<string>): seq<string>
    decreases |cs|
  {
    if cs == [] then stack else Fold(Apply(stack, cs[0]), cs[1..])
  }

  // The components written out, each with a separator before and after it.
  function Dir(stack: seq<string>): (s: string)
    ensures s != [] && s[0] == PATHSEP && s[|s| - 1] == PATHSEP
  {
    if stack == [] then [PATHSEP] else Dir(stack[..|stack| - 1]) + stack[|stack| - 1] + [PATHSEP]
  }

  // An absolute path name made of the components; none make the root.
  function Join(stack: seq<string>): (s: string)
    ensures s != [] && s[0] == PATHSEP
  {
    if stack == [] then [PATHSEP] else Dir(stack[..|stack| - 1]) + stack[|stack| - 1]
  }

  // The clean form of an absolute path name.
  function Clean(s: string): string
    requires s != [] && s[0] == PATHSEP
  {
    Join(Fold([], Split(s[1..])))
  }

  // A component that can be part of a clean name.
  predicate Plain(c: string) { PATHSEP !in c && c != "." && c != ".." }

  ghost predicate AllPlain(cs: seq<string>) { forall i :: 0 <= i < |cs| ==> Plain(cs[i]) }

  ghost predicate NoSlashes(cs: seq<string>) { forall i :: 0 <= i < |cs| ==> PATHSEP !in cs[i] }

  lemma {:induction false} SplitNoSlashes(s: string)
    ensures NoSlashes(Split(s))
    decreases |s|
  {
    var k := FirstSlash(s);
    if k < |s| { SplitNoSlashes(s[k + 1..]); }
  }

  lemma {:induction false} FoldPlain(stack: seq<string>, cs: seq<string>)
    requires AllPlain(stack) && NoSlashes(cs)
    ensures AllPlain(Fold(stack, cs))
    decreases |cs|
  {
    if cs != [] {
      FoldPlain(Apply(stack, cs[0]), cs[1..]);
    }
  }

  lemma {:induction false} FoldOfPlain(stack: seq<string>, cs: seq<string>)
    requires AllPlain(cs)
    ensures Fold(stack, cs) == stack + cs
    decreases |cs|
  {
    if cs == [] {
      assert stack + cs == stack;
    } else {
      FoldOfPlain(stack + [cs[0]], cs[1..]);
      assert stack + [cs[0]] + cs[1..] == stack + cs;
    }
  }

  lemma SplitAppend(s: string, c: string)
    requires PATHSEP !in c
    ensures Split(s + [PATHSEP] + c) == Split(s) + [c]
  {
    SplitConcat(s, c);
    FirstSlashNone(c);
  }

  lemma {:induction false} FirstSlashAppend(s: string, t: string)
    requires t != [] && t[0] == PATHSEP
    ensures FirstSlash(s + t) == FirstSlash(s)
    decreases |s|
  {
    if s == [] {
      assert s + t == t;
    } else if s[0] != PATHSEP {
      assert (s + t)[1..] == s[1..] + t;
      FirstSlashAppend(s[1..], t);
    }
  }

  lemma {:induction false} FirstSlashNone(c: string)
    requires PATHSEP !in c
    ensures FirstSlash(c) == |c|
    decreases |c|
  {
    if c != [] {
      assert c[0] in c;
      FirstSlashNone(c[1..]);
    }
  }

  // Splitting what Join put together gives the components back.
  lemma {:induction false} SplitJoin(stack: seq<string>)
    requires stack != [] && NoSlashes(stack)
    ensures Split(Join(stack)[1..]) == stack
    decreases |stack|
  {
    var last, rest := stack[|stack| - 1], stack[..|stack| - 1];
    assert stack == rest + [last];
    if rest == [] {
      assert Join(stack)[1..] == last;
      FirstSlashNone(last);
    } else {
      SplitJoin(rest);
      assert Dir(rest) == Join(rest) + [PATHSEP];
      assert Join(stack)[1..] == Join(rest)[1..] + [PATHSEP] + last;
      SplitAppend(Join(rest)[1..], last);
    }
  }

  // A clean name has no "." and no ".." component.
  lemma CleanIsPlain(s: string)
    requires s != [] && s[0] == PATHSEP
    ensures Clean(s)[0] == PATHSEP && AllPlain(Split(Clean(s)[1..]))
  {
    hide Fold, FirstSlash, Dir;
    var stack := CleanStack(s);
    if stack != [] {
      SplitJoin(stack);
    } else {
      SplitEmpty();
    }
  }

  // The components that are left.
  lemma CleanStack(s: string) returns (stack: seq<string>)
    requires s != [] && s[0] == PATHSEP
    ensures Clean(s) == Join(stack) && AllPlain(stack) && NoSlashes(stack)
  {
    stack := Fold([], Split(s[1..]));
    SplitNoSlashes(s[1..]);
    FoldPlain([], Split(s[1..]));
  }

  lemma SplitEmpty()
    ensures Split([]) == [[]] && Join([])[1..] == [] && Join([[]]) == [PATHSEP] && Join([]) == [PATHSEP]
  {}

  // Cleaning a clean name changes nothing.
  lemma CleanTwice(s: string)
    requires s != [] && s[0] == PATHSEP
    ensures Clean(Clean(s)) == Clean(s)
  {
    hide Fold, FirstSlash, Dir, Split, Join;
    var stack := CleanStack(s);
    SplitEmpty();
    if stack != [] {
      SplitJoin(stack);
      FoldOfPlain([], stack);
      assert [] + stack == stack;
    } else {
      var root: seq<string> := [[]];
      FoldOfPlain([], root);
      assert [] + root == root;
    }
  }

  // A name is clean already exactly when none of its components is "." or "..".
  lemma CleanFixed(s: string)
    requires s != [] && s[0] == PATHSEP
    ensures Clean(s) == s <==> AllPlain(Split(s[1..]))
  {
    if AllPlain(Split(s[1..])) {
      FoldOfPlain([], Split(s[1..]));
      assert [] + Split(s[1..]) == Split(s[1..]);
      JoinSplit(s[1..]);
      assert s == [PATHSEP] + s[1..];
    } else if Clean(s) == s {
      CleanIsPlain(s);
    }
  }

  // Joining the components of a name gives the name back.
  lemma {:induction false} JoinSplit(s: string)
    ensures Join(Split(s)) == [PATHSEP] + s
    decreases |s|
  {
    hide *;
    var k := FirstSlash(s);
    SplitStep(s);
    if k == |s| {
      JoinOne(s);
    } else {
      var a, rest := s[..k], s[k + 1..];
      JoinSplit(rest);
      JoinFront(a, Split(rest));
      Parts(s, k);
      Regroup([PATHSEP], a, [PATHSEP], rest);
    }
  }

  lemma Parts(s: string, k: nat)
    requires k < |s| && s[k] == PATHSEP
    ensures s == s[..k] + [PATHSEP] + s[k + 1..]
  {}

  lemma Regroup(a: string, b: string, c: string, d: string)
    ensures a + b + (c + d) == a + (b + c + d)
  {}

  lemma JoinOne(s: string)
    ensures Join([s]) == [PATHSEP] + s
  {
    assert [s][..0] == [];
  }

  lemma {:induction false} DirFront(c: string, cs: seq<string>)
    ensures Dir([c] + cs) == [PATHSEP] + c + Dir(cs)
    decreases |cs|
  {
    if cs == [] {
      assert [c] + cs == [c];
      assert Dir([c]) == Dir([]) + c + [PATHSEP];
    } else {
      var last, rest := cs[|cs| - 1], cs[..|cs| - 1];
      DirFront(c, rest);
      assert ([c] + cs)[..|cs|] == [c] + rest;
    }
  }

  lemma JoinFront(c: string, cs: seq<string>)
    requires cs != []
    ensures Join([c] + cs) == [PATHSEP] + c + Join(cs)
  {
    var last, rest := cs[|cs| - 1], cs[..|cs| - 1];
    DirFront(c, rest);
    assert ([c] + cs)[..|cs|] == [c] + rest && ([c] + cs)[|cs|] == last;
    assert Join([c] + cs) == Dir([c] + rest) + last && Join(cs) == Dir(rest) + last;
    hide *;
    Regroup([PATHSEP], c, Dir(rest), last);
    assert [PATHSEP] + c + Dir(rest) + last == [PATHSEP] + c + (Dir(rest) + last);
  }

  // ----- the buffer -----

  // C strings: what comes before the first NUL.
  ghost predicate Holds(a: array<char>, s: string)
    reads a
  {
    |s| < a.Length && a[|s|] == NUL && forall i :: 0 <= i < |s| ==> a[i] == s[i] && s[i] != NUL
  }

  // strlen
  method StrLen(a: array<char>, ghost s: string) returns (n: nat)
    requires Holds(a, s)
    ensures n == |s|
  {
    n := 0;
    while a[n] != NUL
      invariant n <= |s|
      decreases |s| - n
    {
      n := n + 1;
    }
  }

  // strrchr of the separator: its last place in the string, or -1.
  method LastSlash(a: array<char>, ghost s: string) returns (i: int)
    requires Holds(a, s)
    ensures -1 <= i < |s| && (i >= 0 ==> s[i] == PATHSEP) && forall j :: i < j < |s| ==> s[j] != PATHSEP
  {
    var n := StrLen(a, s);
    i := n as int - 1;
    while i >= 0 && a[i] != PATHSEP
      invariant -1 <= i < |s| && forall j :: i < j < |s| ==> s[j] != PATHSEP
    {
      i := i - 1;
    }
  }

  lemma RootDir()
    ensures Dir([]) == [PATHSEP]
  {}

  // Where the last separator is once the final one is gone.
  lemma LastSlashOfDir(stack: seq<string>, t: string, i: int)
    requires t + [PATHSEP] == Dir(stack) && NoSlashes(stack)
    requires -1 <= i < |t| && (i >= 0 ==> t[i] == PATHSEP) && forall j :: i < j < |t| ==> t[j] != PATHSEP
    ensures if stack == [] then i == -1 else i >= 0 && t[..i + 1] == Dir(stack[..|stack| - 1])
  {
    if stack == [] {
      assert |t| == 0;
    } else {
      var last, d := stack[|stack| - 1], Dir(stack[..|stack| - 1]);
      assert t == (d + last + [PATHSEP])[..|d + last|] == d + last;
      LastSlashAfter(d, last, i);
    }
  }

  lemma LastSlashAfter(d: string, last: string, i: int)
    requires d != [] && d[|d| - 1] == PATHSEP && PATHSEP !in last
    requires -1 <= i < |d + last| && (i >= 0 ==> (d + last)[i] == PATHSEP)
    requires forall j :: i < j < |d + last| ==> (d + last)[j] != PATHSEP
    ensures i == |d| - 1 && (d + last)[..i + 1] == d
  {
    NoSlashAt(last);
    assert (d + last)[|d| - 1] == PATHSEP;
    assert forall k :: |d| <= k < |d + last| ==> (d + last)[k] == last[k - |d|];
  }

  lemma NoSlashAt(s: string)
    requires PATHSEP !in s
    ensures forall k :: 0 <= k < |s| ==> s[k] != PATHSEP
  {}

  // Taking the last component out of a buffer that holds Dir(stack) up to out: on "..".
  method PopLast(a: array<char>, out: nat, ghost stack: seq<string>) returns (out': nat)
    requires 0 < out < a.Length && a[..out] == Dir(stack) && NUL !in a[..out] && NoSlashes(stack)
    modifies a
    ensures out' <= out && a[..out'] == Dir(Apply(stack, "..")) && NUL !in a[..out']
  {
    a[out - 1] := NUL;
    ghost var t := a[..out - 1];
    assert t + [PATHSEP] == Dir(stack);
    assert Holds(a, t);
    var slash := LastSlash(a, t);
    LastSlashOfDir(stack, t, slash);
    hide Dir;
    RootDir();
    if slash >= 0 {
      a[slash + 1] := NUL;
      assert Holds(a, t[..slash + 1]);
      out' := StrLen(a, t[..slash + 1]);
    } else {
      a[0] := PATHSEP;
      out' := 1;
    }
  }

  // Copying up to and with the next separator, or to the end of the name, or of the buffer.
  method CopyPart(name: array<char>, ghost s: string, a: array<char>, pos: nat, out: nat) returns (pos': nat, out': nat)
    requires Holds(name, s) && pos < |s| && a != name && out < a.Length
    modifies a
    ensures pos < pos' <= |s|
    ensures var part := Part(s[pos..]);
            if out + |part| < a.Length
            then pos' == pos + |part| && out' == out + |part| && a[..out'] == old(a[..out]) + part
            else out' == a.Length
  {
    hide FirstSlash;
    pos', out' := pos, out;
    ghost var k := FirstSlash(s[pos..]);
    while name[pos'] != NUL && out' < a.Length
      invariant pos <= pos' <= |s| && pos' - pos <= k && out' == out + (pos' - pos) <= a.Length
      invariant a[..out'] == old(a[..out]) + s[pos..pos']
      decreases |s| - pos'
    {
      assert s[pos'] == s[pos..][pos' - pos];
      a[out'] := name[pos'];
      out', pos' := out' + 1, pos' + 1;
      assert a[..out'] == old(a[..out]) + s[pos..pos'];
      if name[pos' - 1] == PATHSEP {
        break;
      }
    }
    assert out' == a.Length || s[pos..pos'] == Part(s[pos..]);
  }

  // ----- the pass -----

  // What a buffer holds up to out, between components.
  ghost predicate Between(a: array<char>, out: nat, stack: seq<string>)
    reads a
  {
    out < a.Length && a[..out] == Dir(stack) && NUL !in a[..out] && NoSlashes(stack)
  }

  // What a buffer holds at the end, but for the NUL that is about to be stored at out.
  ghost predicate Ended(a: array<char>, out: nat, r: string)
    reads a
  {
    |r| <= out < a.Length && a[..|r|] == r && NUL !in r && (|r| < out ==> a[|r|] == NUL)
  }

  // The component that begins a name.
  function Head(s: string): string { s[..FirstSlash(s)] }

  // The same as it is copied, with the separator after it if there is one.
  function Part(s: string): string { if FirstSlash(s) < |s| then s[..FirstSlash(s) + 1] else s }

  // The first component can be added to a buffer of this size, and the NUL after it.
  predicate Room(stack: seq<string>, s: string, size: nat) {
    Head(s) == "." || Head(s) == ".." || |Dir(stack)| + |Part(s)| < size
  }

  // Each component of s in its turn, after those before it have been dropped or popped.
  predicate Fits(stack: seq<string>, s: string, size: nat)
    decreases |s|
  {
    s == []
    || (Room(stack, s, size)
        && (FirstSlash(s) == |s| || Fits(Apply(stack, Head(s)), s[FirstSlash(s) + 1..], size)))
  }

  // A name that is short enough even if nothing is dropped or popped fits.
  lemma {:induction false} ShortFits(stack: seq<string>, s: string, size: nat)
    requires |Dir(stack)| + |s| < size
    ensures Fits(stack, s, size)
    decreases |s|
  {
    if s != [] && FirstSlash(s) < |s| {
      DirGrows(stack, Head(s));
      ShortFits(Apply(stack, Head(s)), s[FirstSlash(s) + 1..], size);
    }
  }

  lemma DirGrows(stack: seq<string>, c: string)
    ensures |Dir(Apply(stack, c))| <= |Dir(stack)| + |c| + 1
  {
    assert (stack + [c])[..|stack|] == stack;
  }

  lemma FoldStep(stack: seq<string>, s: string)
    ensures FirstSlash(s) < |s| ==> Fold(stack, Split(s)) == Fold(Apply(stack, Head(s)), Split(s[FirstSlash(s) + 1..]))
    ensures FirstSlash(s) == |s| ==> Fold(stack, Split(s)) == Apply(stack, Head(s))
  {
    var k := FirstSlash(s);
    if k < |s| {
      assert Split(s)[0] == Head(s) && Split(s)[1..] == Split(s[k + 1..]);
    } else {
      assert Head(s) == s;
      assert Split(s) == [s] && Split(s)[1..] == [];
    }
  }

  lemma {:induction false} FirstSlashIs(s: string, k: nat)
    requires k <= |s| && (k < |s| ==> s[k] == PATHSEP) && forall j :: 0 <= j < k ==> s[j] != PATHSEP
    ensures FirstSlash(s) == k
  {
    if k > 0 { FirstSlashIs(s[1..], k - 1); }
  }

  // Leaving out the final separator, except that of the root.
  method TrimSlash(a: array<char>, out: nat, ghost stack: seq<string>)
    requires Between(a, out, stack)
    modifies a
    ensures Ended(a, out, Join(stack))
  {
    RootDir();
    if out > 1 {
      a[out - 1] := NUL;
      assert Dir(stack) == Join(stack) + [PATHSEP];
      assert a[..out - 1] == Join(stack);
    }
  }

  // Another component at the end of the buffer.
  lemma Copied(a: array<char>, out: nat, stack: seq<string>, c: string)
    requires out < a.Length && PATHSEP !in c && NUL !in c && NoSlashes(stack) && NUL !in Dir(stack)
    ensures a[..out] == Dir(stack) + c + [PATHSEP] ==> Between(a, out, stack + [c])
    ensures a[..out] == Dir(stack) + c ==> Ended(a, out, Join(stack + [c]))
  {
    assert (stack + [c])[..|stack|] == stack;
  }

  // The loop's cases for a component c of the name.
  method Component(name: array<char>, ghost s: string, a: array<char>, pos: nat, out: nat, ghost stack: seq<string>)
    returns (pos': nat, out': nat)
    requires Holds(name, s) && pos < |s| && a != name && Between(a, out, stack)
    modifies a
    ensures pos < pos' <= |s|
    ensures var rest := s[pos..];
            if !Room(stack, rest, a.Length) then out' == a.Length
            else
              && pos' == pos + FirstSlash(rest) + (if FirstSlash(rest) < |rest| then 1 else 0)
              && (if FirstSlash(rest) < |rest| then Between(a, out', Apply(stack, Head(rest)))
                  else Ended(a, out', Join(Apply(stack, Head(rest)))))
  {
    hide Dir, FirstSlash, Join;
    ghost var rest := s[pos..];
    if name[pos] == '.' && name[pos + 1] == PATHSEP {
      FirstSlashIs(rest, 1);
      pos', out' := pos + 2, out;
    } else if name[pos] == '.' && name[pos + 1] == NUL {
      FirstSlashIs(rest, 1);
      pos', out' := pos + 1, out;
      TrimSlash(a, out, stack);
    } else if name[pos] == '.' && name[pos + 1] == '.' && (name[pos + 2] == PATHSEP || name[pos + 2] == NUL) {
      FirstSlashIs(rest, 2);
      pos' := pos + 2;
      out' := PopLast(a, out, stack);
      if name[pos'] == PATHSEP {
        pos' := pos' + 1;
      } else {
        TrimSlash(a, out', Apply(stack, ".."));
      }
    } else {
      HeadIsPlain(rest);
      assert out == |Dir(stack)|;
      pos', out' := CopyPart(name, s, a, pos, out);
      if out' < a.Length { CopiedHead(a, out', stack, s, pos); }
    }
  }

  lemma HeadIsPlain(s: string)
    requires s != [] && !(s[0] == '.' && (|s| == 1 || s[1] == PATHSEP))
    requires !(s[0] == '.' && |s| > 1 && s[1] == '.' && (|s| == 2 || s[2] == PATHSEP))
    ensures Head(s) != "." && Head(s) != ".."
  {
    var c := Head(s);
    if |c| >= 1 { assert c[0] == s[0]; }
    if |c| >= 2 { assert c[1] == s[1]; }
  }

  lemma CopiedHead(a: array<char>, out: nat, stack: seq<string>, s: string, pos: nat)
    requires pos < |s| && out < a.Length && NoSlashes(stack) && NUL !in Dir(stack)
             && (forall i :: 0 <= i < |s| ==> s[i] != NUL)
    requires Head(s[pos..]) != "." && Head(s[pos..]) != ".." && a[..out] == Dir(stack) + Part(s[pos..])
    ensures var rest := s[pos..];
            if FirstSlash(rest) < |rest| then Between(a, out, Apply(stack, Head(rest)))
            else Ended(a, out, Join(Apply(stack, Head(rest))))
  {
    hide Dir, Join, Between, Ended, FirstSlash;
    var rest := s[pos..];
    var k, c := FirstSlash(rest), Head(rest);
    assert forall i :: 0 <= i < |c| ==> c[i] == s[pos + i];
    assert NUL !in c;
    Copied(a, out, stack, c);
    if k < |rest| {
      assert Part(rest) == c + [PATHSEP];
      assert Dir(stack) + (c + [PATHSEP]) == Dir(stack) + c + [PATHSEP];
    } else {
      assert rest == c;
    }
  }

  // File_AddSlashToEndFileName
  method AddSlash(a: array<char>, ghost s: string)
    requires Holds(a, s) && |WithSlash(s)| < a.Length
    modifies a
    ensures Holds(a, WithSlash(s))
  {
    var len := StrLen(a, s);
    if len != 0 {
      if a[len - 1] != PATHSEP {
        a[len] := PATHSEP;
        a[len + 1] := NUL;
      }
    }
  }

  function WithSlash(s: string): string { if s != [] && s[|s| - 1] != PATHSEP then s + [PATHSEP] else s }

  // File_IsRootFileName
  method IsRoot(a: array<char>, ghost s: string) returns (r: bool)
    requires Holds(a, s)
    ensures r == IsAbsolute(s)
  {
    if a[0] == NUL {
      return false;
    }
    return a[0] == PATHSEP;
  }

  predicate IsAbsolute(s: string) { s != [] && s[0] == PATHSEP }

  // strcpy
  method StrCpy(dst: array<char>, src: array<char>, ghost s: string)
    requires Holds(src, s) && |s| < dst.Length && dst != src
    modifies dst
    ensures Holds(dst, s)
  {
    var i := 0;
    while src[i] != NUL
      invariant i <= |s| && Holds(src, s) && forall j :: 0 <= j < i ==> dst[j] == s[j]
      decreases |s| - i
    {
      dst[i] := src[i];
      i := i + 1;
    }
    dst[i] := NUL;
  }

  // The components of a directory name.
  function Stack(dir: string): seq<string>
    requires IsAbsolute(dir)
  {
    var d := WithSlash(dir);
    if |d| == 1 then [] else Split(d[1..|d| - 1])
  }

  lemma DirOfStack(dir: string)
    requires IsAbsolute(dir)
    ensures Dir(Stack(dir)) == WithSlash(dir) && NoSlashes(Stack(dir))
  {
    var d := WithSlash(dir);
    if |d| > 1 {
      var p := d[1..|d| - 1];
      JoinSplit(p);
      SplitNoSlashes(p);
      assert Dir(Split(p)) == Join(Split(p)) + [PATHSEP];
      assert d == [PATHSEP] + p + [PATHSEP];
    } else {
      assert d == [PATHSEP];
    }
  }

  // The result for a name s and a working directory.
  function Absolute(s: string, cwd: string): string
    requires IsAbsolute(s) || IsAbsolute(cwd)
  {
    if IsAbsolute(s) then Clean(s) else Join(Fold(Stack(cwd), Split(s)))
  }

  // From a clean directory, a name means what it means after the directory's own name.
  lemma RelativeToClean(s: string, cwd: string)
    requires !IsAbsolute(s) && IsAbsolute(cwd) && AllPlain(Stack(cwd))
    ensures Absolute(s, cwd) == Clean(WithSlash(cwd) + s)
  {
    hide Dir, Join, FirstSlash, Apply;
    var d := WithSlash(cwd);
    if |d| == 1 {
      assert (d + s)[1..] == s;
    } else {
      var p := d[1..|d| - 1];
      assert (d + s)[1..] == p + [PATHSEP] + s;
      hide Split, Fold;
      SplitConcat(p, s);
      FoldConcat([], Split(p), Split(s));
      FoldOfPlain([], Split(p));
      assert [] + Split(p) == Split(p);
    }
  }

  lemma {:induction false} SplitConcat(s: string, t: string)
    ensures Split(s + [PATHSEP] + t) == Split(s) + Split(t)
    decreases |s|
  {
    hide *;
    var u, k := s + [PATHSEP] + t, FirstSlash(s);
    FirstSlashAppend(s, [PATHSEP] + t);
    Cut(s, t, k);
    SplitStep(u);
    SplitStep(s);
    if k < |s| {
      SplitConcat(s[k + 1..], t);
      RegroupList(s[..k], Split(s[k + 1..]), Split(t));
    }
  }

  lemma Cut(s: string, t: string, k: nat)
    requires k <= |s|
    ensures s + ([PATHSEP] + t) == s + [PATHSEP] + t && (s + [PATHSEP] + t)[..k] == s[..k]
    ensures k < |s| ==> (s + [PATHSEP] + t)[k + 1..] == s[k + 1..] + [PATHSEP] + t
    ensures s[..|s|] == s && (s + [PATHSEP] + t)[|s| + 1..] == t
  {}

  lemma RegroupList(a: string, b: seq<string>, c: seq<string>)
    ensures [a] + (b + c) == [a] + b + c
  {}

  lemma SplitStep(s: string)
    ensures var k := FirstSlash(s); Split(s) == if k < |s| then [s[..k]] + Split(s[k + 1..]) else [s]
  {}

  lemma {:induction false} FoldConcat(stack: seq<string>, cs: seq<string>, ds: seq<string>)
    ensures Fold(stack, cs + ds) == Fold(Fold(stack, cs), ds)
    decreases |cs|
  {
    if cs == [] {
      assert cs + ds == ds;
    } else {
      assert (cs + ds)[1..] == cs[1..] + ds;
      FoldConcat(Apply(stack, cs[0]), cs[1..], ds);
    }
  }

  // ----- what "." and ".." do to a name -----

  // A beginning of an absolute name: nothing, or an absolute name itself.
  predicate IsFront(p: string) { p == "" || p[0] == PATHSEP }

  // The components of a front.
  ghost function FrontParts(p: string): seq<string>
    requires IsFront(p)
  {
    if p == "" then [] else Split(p[1..])
  }

  lemma SplitAfter(p: string, s: string)
    requires IsFront(p)
    ensures Split((p + [PATHSEP] + s)[1..]) == FrontParts(p) + Split(s)
  {
    if p == "" {
      assert (p + [PATHSEP] + s)[1..] == s;
      assert [] + Split(s) == Split(s);
    } else {
      assert (p + [PATHSEP] + s)[1..] == p[1..] + [PATHSEP] + s;
      SplitConcat(p[1..], s);
    }
  }

  // A clean name by the components of its front and of the rest.
  lemma CleanAfter(p: string, s: string)
    requires IsFront(p)
    ensures Clean(p + [PATHSEP] + s) == Join(Fold(Fold([], FrontParts(p)), Split(s)))
  {
    hide Split, Fold, Join, FrontParts;
    SplitAfter(p, s);
    FoldConcat([], FrontParts(p), Split(s));
  }

  lemma FoldHead(stack: seq<string>, c: string, cs: seq<string>)
    ensures Fold(stack, [c] + cs) == Fold(Apply(stack, c), cs)
    ensures Fold(stack, []) == stack && Fold(stack, [c]) == Apply(stack, c)
  {
    assert ([c] + cs)[1..] == cs;
    assert [c][1..] == [];
  }

  lemma SplitHead(c: string, s: string)
    requires PATHSEP !in c
    ensures Split(c + [PATHSEP] + s) == [c] + Split(s) && Split(c) == [c]
  {
    hide FirstSlash;
    FirstSlashNone(c);
    SplitStep(c);
    SplitConcat(c, s);
    assert c[..|c|] == c;
  }

  // ".." takes the component before it away, in the middle of a name ...
  lemma DotDotTakes(p: string, c: string, s: string)
    requires IsFront(p) && Plain(c)
    ensures Clean(p + [PATHSEP] + (c + [PATHSEP] + (".." + [PATHSEP] + s))) == Clean(p + [PATHSEP] + s)
  {
    hide Split, Fold, Join, FrontParts, Clean;
    var base := Fold([], FrontParts(p));
    CleanAfter(p, c + [PATHSEP] + (".." + [PATHSEP] + s));
    SplitHead(c, ".." + [PATHSEP] + s);
    SplitHead("..", s);
    FoldHead(base, c, [".."] + Split(s));
    FoldHead(Apply(base, c), "..", Split(s));
    assert (base + [c])[..|base|] == base;
    CleanAfter(p, s);
  }

  // ... and at its end.
  lemma DotDotEnds(p: string, c: string)
    requires IsFront(p) && Plain(c)
    ensures Clean(p + [PATHSEP] + (c + [PATHSEP] + "..")) == if p == "" then [PATHSEP] else Clean(p)
  {
    hide Split, Fold, Join;
    var base := Fold([], FrontParts(p));
    CleanAfter(p, c + [PATHSEP] + "..");
    SplitHead(c, "..");
    SplitHead("..", "");
    FoldHead(base, c, [".."]);
    FoldHead(Apply(base, c), "..", []);
    assert (base + [c])[..|base|] == base;
    FoldHead([], "", []);
    SplitEmpty();
  }

  // At the root there is nothing to take away.
  lemma DotDotAtRoot(s: string)
    ensures Clean([PATHSEP] + (".." + [PATHSEP] + s)) == Clean([PATHSEP] + s) && Clean([PATHSEP] + "..") == [PATHSEP]
  {
    hide Split, Fold, Join, Clean;
    CleanAfter("", ".." + [PATHSEP] + s); CleanAfter("", s); CleanAfter("", "..");
    assert "" + [PATHSEP] == [PATHSEP];
    SplitHead("..", s);
    FoldHead([], "..", Split(s));
    FoldHead([], "..", []);
    SplitEmpty();
  }

  // "." is left out, in the middle of a name and at its end.
  lemma DotIsNothing(p: string, s: string)
    requires IsFront(p)
    ensures Clean(p + [PATHSEP] + ("." + [PATHSEP] + s)) == Clean(p + [PATHSEP] + s)
    ensures Clean(p + [PATHSEP] + ".") == if p == "" then [PATHSEP] else Clean(p)
  {
    hide Split, Fold, Join;
    var base := Fold([], FrontParts(p));
    CleanAfter(p, "." + [PATHSEP] + s); CleanAfter(p, s); CleanAfter(p, ".");
    SplitHead(".", s);
    FoldHead(base, ".", Split(s));
    FoldHead([], "", []);
    SplitEmpty();
  }

  // A separator is added once.
  lemma SlashOnce(s: string)
    ensures var t := WithSlash(s);
      && s <= t && |t| <= |s| + 1 && (s != "" ==> t[|t| - 1] == PATHSEP)
      && (t == s <==> s == "" || s[|s| - 1] == PATHSEP) && WithSlash(t) == t
  {}

  // Where the pass stands at pos, when r is to come out if it fits: out of room, nothing copied
  // yet, between components, or after the last one.
  ghost predicate Stands(s: string, a: array<char>, pos: nat, out: nat, stack: seq<string>, r: string, fits: bool)
    reads a
  {
    && pos <= |s| && out <= a.Length
    && (if out == a.Length then !fits
        else if out == 0 then pos == 0 && IsAbsolute(s) && r == Clean(s) && fits == Fits([], s[1..], a.Length)
        else (pos == |s| && Ended(a, out, r) && fits)
             || (Between(a, out, stack) && r == Join(Fold(stack, Split(s[pos..])))
                && fits == Fits(stack, s[pos..], a.Length)))
  }

  lemma StandsAtEnd(s: string, a: array<char>, out: nat, stack: seq<string>, r: string, fits: bool)
    requires Stands(s, a, |s|, out, stack, r, fits) && 0 < out < a.Length
    ensures Ended(a, out, r) && fits
  {
    if Between(a, out, stack) && r == Join(Fold(stack, Split(s[|s|..]))) {
      var none: seq<string> := [[]];
      assert s[|s|..] == [] && Split([]) == none;
      assert Fold(stack, none) == stack + none by { FoldOfPlain(stack, none); }
      assert (stack + none)[..|stack|] == stack;
      assert r == Dir(stack) + [];
    }
  }

  // One turn of the loop.
  method Turn(name: array<char>, ghost s: string, a: array<char>, pos: nat, out: nat, ghost stack: seq<string>,
          ghost r: string, ghost fits: bool)
    returns (pos': nat, out': nat, ghost stack': seq<string>)
    requires Holds(name, s) && pos < |s| && a != name && a.Length > 1 && out < a.Length
             && Stands(s, a, pos, out, stack, r, fits)
    modifies a
    ensures pos < pos' && out' > 0 && Stands(s, a, pos', out', stack', r, fits)
  {
    hide Dir, Join, Split, FirstSlash, Fold, Between, Ended, Apply, Room, Fits, Clean;
    if out == 0 {
      pos', out' := CopyRoot(name, s, a);
      stack' := [];
    } else {
      ghost var rest := s[pos..];
      FitsStep(stack, rest, a.Length);
      stack' := Apply(stack, Head(rest));
      FoldStep(stack, rest);
      pos', out' := Component(name, s, a, pos, out, stack);
      NotEmpty(a, out', stack');
      if FirstSlash(rest) < |rest| { assert rest[FirstSlash(rest) + 1..] == s[pos + FirstSlash(rest) + 1..]; }
    }
  }

  // The separator an absolute name begins with.
  method CopyRoot(name: array<char>, ghost s: string, a: array<char>) returns (pos': nat, out': nat)
    requires Holds(name, s) && IsAbsolute(s) && a != name && a.Length > 1
    modifies a
    ensures pos' == out' == 1 && Between(a, 1, []) && Clean(s) == Join(Fold([], Split(s[pos'..])))
  {
    hide Dir, Join, Split, FirstSlash, Fold, Between;
    FirstSlashIs(s, 0);
    assert s[0..] == s;
    pos', out' := CopyPart(name, s, a, 0, 0);
    assert a[..1] == [PATHSEP];
    RootBuffer(a);
  }

  lemma FitsStep(stack: seq<string>, s: string, size: nat)
    requires s != []
    ensures Fits(stack, s, size) <==>
            Room(stack, s, size) && (FirstSlash(s) == |s| || Fits(Apply(stack, Head(s)), s[FirstSlash(s) + 1..], size))
  {}

  lemma RootBuffer(a: array<char>)
    requires a.Length > 1
    ensures a[..1] == [PATHSEP] ==> Between(a, 1, [])
  {}

  lemma NotEmpty(a: array<char>, out: nat, stack: seq<string>)
    ensures Between(a, out, stack) || Ended(a, out, Join(stack)) ==> 0 < out < a.Length
  {}

  const FILENAME_MAX: nat := 4096

  // The buffer is large enough for every stage of the pass.
  predicate FitsBuffer(s: string, cwd: string)
    requires IsAbsolute(s) || IsAbsolute(cwd)
  {
    if IsAbsolute(s) then Fits([], s[1..], FILENAME_MAX)
    else |WithSlash(cwd)| < FILENAME_MAX && Fits(Stack(cwd), s, FILENAME_MAX)
  }

  // An absolute name always fits, and a relative one that fits together with the directory.
  lemma FitsTogether(s: string, cwd: string)
    requires if IsAbsolute(s) then |s| < FILENAME_MAX else IsAbsolute(cwd) && |WithSlash(cwd)| + |s| < FILENAME_MAX
    ensures FitsBuffer(s, cwd)
  {
    if IsAbsolute(s) {
      RootDir();
      ShortFits([], s[1..], FILENAME_MAX);
    } else {
      DirOfStack(cwd);
      ShortFits(Stack(cwd), s, FILENAME_MAX);
    }
  }

  // File_MakeAbsoluteName, for a name s in a buffer of the size it demands, up to where it would
  // store beyond its own buffer.
  method MakeAbsoluteName(name: array<char>, ghost s: string, cwd: string) returns (fits: bool)
    requires name.Length == FILENAME_MAX && Holds(name, s)
    requires IsAbsolute(cwd) && NUL !in cwd && |cwd| < FILENAME_MAX
    modifies name
    ensures fits <==> FitsBuffer(s, cwd)
    ensures Holds(name, if fits then Absolute(s, cwd) else s)
    ensures IsAbsolute(s) || |WithSlash(cwd)| + |s| < FILENAME_MAX ==> fits
  {
    hide Dir, Join, Split, Fold, Between, Ended, Stack, Fits;
    if IsAbsolute(s) || |WithSlash(cwd)| + |s| < FILENAME_MAX { FitsTogether(s, cwd); }
    var a := new char[FILENAME_MAX];
    var pos: nat, out: nat := 0, 0;
    ghost var r, stack, ok := Absolute(s, cwd), [], FitsBuffer(s, cwd);
    var root := IsRoot(name, s);
    if !root {
      if |WithSlash(cwd)| == FILENAME_MAX {
        return false;
      }
      forall i | 0 <= i < |cwd| { a[i] := cwd[i]; }
      a[|cwd|] := NUL;
      assert Holds(a, cwd);
      AddSlash(a, cwd);
      out := StrLen(a, WithSlash(cwd));
      stack := Stack(cwd);
      DirBuffer(a, out, cwd);
      assert s[0..] == s;
    }
    while name[pos] != NUL && out < a.Length
      invariant pos <= |s| && Holds(name, s) && Stands(s, a, pos, out, stack, r, ok)
      decreases |s| - pos
    {
      pos, out, stack := Turn(name, s, a, pos, out, stack, r, ok);
    }
    if out == a.Length {
      return false;
    }
    StandsAtEnd(s, a, out, stack, r, ok);
    a[out] := NUL;
    EndedHolds(a, out, r);
    StrCpy(name, a, r);
    fits := true;
  }

  lemma DirBuffer(a: array<char>, out: nat, cwd: string)
    requires IsAbsolute(cwd) && Holds(a, WithSlash(cwd)) && out == |WithSlash(cwd)|
    ensures out > 0 && Between(a, out, Stack(cwd))
  {
    DirOfStack(cwd);
    hide Dir, Stack;
    assert a[..out] == WithSlash(cwd);
  }

  lemma EndedHolds(a: array<char>, out: nat, r: string)
    requires Ended(a, out, r) && a[out] == NUL
    ensures Holds(a, r)
  {
    assert forall i :: 0 <= i < |r| ==> a[i] == a[..|r|][i];
  }
}
