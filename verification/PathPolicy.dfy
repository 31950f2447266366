/** Which repository paths may be written: lexical normalisation, the escape test, and the pattern lists. */
module PathPolicy {
  import opened Text

  datatype PathDecision = PathDecision(allowed: bool, reason: Reason)

  datatype Reason = Escapes | DeniedBy(pattern: string) | NoneConfigured | Covered | NotCovered

  // ---------------------------------------------------------------- normalisation

  predicate IsNoise(comp: string) { comp == "" || comp == "." }

  /** One component of `posixpath.normpath` on a relative path: `..` pops a name, and stays where there
    is none to pop. */
  function Push(stack: seq<string>, comp: string): seq<string> {
    if IsNoise(comp) then stack
    else if comp != ".." || stack == [] || stack[|stack| - 1] == ".." then stack + [comp]
    else stack[..|stack| - 1]
  }

  function Stack(comps: seq<string>): seq<string> {
    if comps == [] then [] else Push(Stack(comps[..|comps| - 1]), comps[|comps| - 1])
  }

  /** `_norm` of a path that does not start with a slash. */
  function Normalize(path: string): string {
    var stack := Stack(Split(path, '/'));
    if stack == [] then "." else Join(stack, '/')
  }

  predicate OccursAt(s: string, i: nat, part: string) {
    i + |part| <= |s| && s[i..i + |part|] == part
  }

  ghost predicate Contains(s: string, part: string) {
    exists i: nat :: OccursAt(s, i, part)
  }

  /** The three tests made on a normalised path. */
  ghost predicate LooksEscaping(n: string) {
    n == ".." || StartsWith(n, "../") || Contains("/" + n + "/", "/../")
  }

  // ---------------------------------------------------------------- the walk

  /** How far below the root a component-by-component walk stands. */
  function Depth(comps: seq<string>): int {
    if comps == [] then 0
    else
      var c := comps[|comps| - 1];
      Depth(comps[..|comps| - 1]) + (if c == "" || c == "." then 0 else if c == ".." then -1 else 1)
  }

  /** The walk stands above the root after some beginning of the path. */
  ghost predicate Dips(comps: seq<string>) {
    exists k :: 0 <= k <= |comps| && Depth(comps[..k]) < 0
  }

  /** The stack is some `..` followed by names, and has a `..` exactly when the walk has dipped; before
    that its height is the depth. */
  lemma {:induction false} StackFollowsWalk(comps: seq<string>)
    ensures var s := Stack(comps);
            && (forall i, j :: 0 <= i < j < |s| && s[j] == ".." ==> s[i] == "..")
            && (Dips(comps) <==> s != [] && s[0] == "..")
            && (!Dips(comps) ==> |s| == Depth(comps))
  {
    if comps == [] {
      assert forall k :: 0 <= k <= |comps| ==> comps[..k] == [];
    } else {
      var n := |comps| - 1;
      var init := comps[..n];
      StackFollowsWalk(init);
      DipsStep(comps);
      hide Dips;
      StackStep(Stack(init), comps[n]);
    }
  }

  /** One component keeps `..`s at the bottom of the stack. */
  lemma StackStep(s: seq<string>, comp: string)
    requires forall i, j :: 0 <= i < j < |s| && s[j] == ".." ==> s[i] == ".."
    ensures var t := Push(s, comp); forall i, j :: 0 <= i < j < |t| && t[j] == ".." ==> t[i] == ".."
    ensures var t := Push(s, comp); t != [] && t[0] == ".." <==> (s != [] && s[0] == "..") || (s == [] && comp == "..")
  {
  }

  lemma DipsStep(comps: seq<string>)
    requires comps != []
    ensures Dips(comps) <==> Dips(comps[..|comps| - 1]) || Depth(comps) < 0
  {
    hide Depth;
    var n := |comps| - 1;
    var init := comps[..n];
    if Dips(comps) {
      var k :| 0 <= k <= |comps| && Depth(comps[..k]) < 0;
      if k <= n { assert comps[..k] == init[..k]; } else { assert comps[..k] == comps; }
    }
    if Dips(init) {
      var k :| 0 <= k <= |init| && Depth(init[..k]) < 0;
      assert comps[..k] == init[..k];
    }
    assert comps[..|comps|] == comps;
  }

  predicate IsName(comp: string) { comp !in ["", ".", ".."] }

  /** Which names are left: on a path that does not dip, entry d of the stack is the name by which the walk
    last went from depth d to depth d + 1, so one that no later `..` cancels. */
  lemma {:induction false} StackHoldsLastNames(comps: seq<string>, d: nat) returns (i: nat)
    requires !Dips(comps) && d < |Stack(comps)|
    ensures i < |comps| && IsName(comps[i]) && Stack(comps)[d] == comps[i] && Depth(comps[..i]) == d
    ensures forall j :: i < j <= |comps| ==> Depth(comps[..j]) > d
  {
    hide Dips;
    var n := |comps| - 1;
    var init := comps[..n];
    assert comps[..|comps|] == comps;
    DipsStep(comps);
    StackFollowsWalk(init);
    if d < |Stack(init)| {
      i := StackHoldsLastNames(init, d);
      assert forall j :: 0 <= j <= n ==> init[..j] == comps[..j];
      StackFollowsWalk(comps);
    } else {
      i := n;
    }
  }

  /** And the normalised text is those names, joined by slashes, or a dot if there are none. */
  lemma NormalizedNames(path: string)
    ensures var stack := Stack(Split(path, '/'));
            if stack == [] then Normalize(path) == "." else Split(Normalize(path), '/') == stack
  {
    hide Split, Join;
    SplitPieces(path, '/');
    StackComponents(Split(path, '/'));
    if Stack(Split(path, '/')) != [] { SplitJoin(Stack(Split(path, '/')), '/'); }
  }

  lemma {:induction false} StackComponents(comps: seq<string>)
    requires forall i :: 0 <= i < |comps| ==> '/' !in comps[i]
    ensures forall i :: 0 <= i < |Stack(comps)| ==> '/' !in Stack(comps)[i]
  {
    if comps != [] { StackComponents(comps[..|comps| - 1]); }
  }

  // ---------------------------------------------------------------- the tests see the stack

  lemma {:induction false} SplitAppend(a: string, b: string)
    ensures Split(a + ['/'] + b, '/') == Split(a, '/') + Split(b, '/')
  {
    var s := a + ['/'] + b;
    if a == "" {
      assert s[1..] == b;
    } else {
      assert s[1..] == a[1..] + ['/'] + b;
      SplitAppend(a[1..], b);
    }
  }

  /** A text between two slashes is one of the pieces. */
  lemma BetweenSlashes(s: string, i: nat, part: string)
    requires '/' !in part && OccursAt(s, i, "/" + part + "/")
    ensures part in Split(s, '/')
  {
    var a, b := s[..i], s[i + |part| + 2..];
    var w := s[i..i + |part| + 2];
    assert s == a + w + b;
    assert w + b == ['/'] + (part + ['/'] + b);
    assert s == a + ['/'] + (part + ['/'] + b);
    SplitAppend(a, part + ['/'] + b);
    SplitFirst(part, b, '/');
  }

  lemma LeadingSlash(t: string)
    ensures Split("/" + t, '/') == [""] + Split(t, '/')
  {
    var s := "/" + t;
    assert s[0] == '/' && s[1..] == t;
  }

  lemma TrailingSlash(n: string)
    ensures Split(n + "/", '/') == Split(n, '/') + [""]
  {
    SplitAppend(n, "");
    assert n + ['/'] + "" == n + "/";
  }

  lemma FramedPieces(stack: seq<string>)
    requires stack != [] && forall i :: 0 <= i < |stack| ==> '/' !in stack[i]
    ensures Split("/" + Join(stack, '/') + "/", '/') == [""] + stack + [""]
  {
    var n := Join(stack, '/');
    SplitJoin(stack, '/');
    LeadingSlash(n);
    TrailingSlash("/" + n);
  }

  /** A joined stack that looks escaping has a `..` in it. */
  lemma EscapingHasDotDot(stack: seq<string>)
    requires stack != [] && forall i :: 0 <= i < |stack| ==> '/' !in stack[i]
    requires LooksEscaping(Join(stack, '/'))
    ensures ".." in stack
  {
    hide Split, Join, OccursAt;
    var n := Join(stack, '/');
    SplitJoin(stack, '/');
    if n == ".." {
      SplitWithout("..", '/');
    } else if StartsWith(n, "../") {
      assert n == ".." + ['/'] + n[3..];
      SplitFirst("..", n[3..], '/');
    } else {
      var i: nat :| OccursAt("/" + n + "/", i, "/../");
      assert "/" + ".." + "/" == "/../";
      FramedPieces(stack);
      BetweenSlashes("/" + n + "/", i, "..");
    }
  }

  lemma LeadingDotDotEscapes(stack: seq<string>)
    requires stack != [] && stack[0] == ".."
    ensures LooksEscaping(Join(stack, '/'))
  {
    if |stack| > 1 { assert Join(stack, '/')[..3] == "../"; }
  }

  /** The tests on the joined stack hold exactly when it starts with `..`. */
  lemma TestsSeeStack(stack: seq<string>)
    requires stack != []
    requires forall i :: 0 <= i < |stack| ==> '/' !in stack[i]
    requires forall i, j :: 0 <= i < j < |stack| && stack[j] == ".." ==> stack[i] == ".."
    ensures LooksEscaping(Join(stack, '/')) <==> stack[0] == ".."
  {
    hide Join, LooksEscaping;
    if LooksEscaping(Join(stack, '/')) {
      EscapingHasDotDot(stack);
    }
    if stack[0] == ".." { LeadingDotDotEscapes(stack); }
  }

  // ---------------------------------------------------------------- decisions

  // The pattern with its trailing slashes and stars stripped, which is what rstrip does with these characters.
  function RStrip(pattern: string): string {
    if pattern != "" && (pattern[|pattern| - 1] == '/' || pattern[|pattern| - 1] == '*')
    then RStrip(pattern[..|pattern| - 1]) else pattern
  }

  /** Stripping takes off exactly the slashes and stars at the end. */
  lemma {:induction false} RStripMeaning(pattern: string)
    ensures var r := RStrip(pattern);
            && r <= pattern && (forall i :: |r| <= i < |pattern| ==> pattern[i] == '/' || pattern[i] == '*')
            && (r != "" ==> r[|r| - 1] != '/' && r[|r| - 1] != '*')
  {
    if pattern != "" { RStripMeaning(pattern[..|pattern| - 1]); }
  }

  /** glob stands for `fnmatch`. */
  predicate Covers(glob: (string, string) -> bool, pattern: string, path: string) {
    glob(path, pattern) || path == RStrip(pattern)
  }

  ghost predicate SomeCovers(glob: (string, string) -> bool, patterns: seq<string>, path: string) {
    exists i :: 0 <= i < |patterns| && Covers(glob, patterns[i], path)
  }

  ghost predicate IsFirstCover(glob: (string, string) -> bool, patterns: seq<string>, path: string, i: int) {
    0 <= i < |patterns| && Covers(glob, patterns[i], path) && forall j :: 0 <= j < i ==> !Covers(glob, patterns[j], path)
  }

  ghost function IsPathAllowed(path: string, allowed: seq<string>, denied: seq<string>, glob: (string, string) -> bool): PathDecision {
    if StartsWith(path, "/") || StartsWith(path, "\\") then PathDecision(false, Escapes)
    else
      var n := Normalize(path);
      if LooksEscaping(n) then PathDecision(false, Escapes)
      else
        var d := FirstHit(p => Covers(glob, p, n), denied);
        if d < |denied| then PathDecision(false, DeniedBy(denied[d]))
        else if allowed == [] then PathDecision(false, NoneConfigured)
        else if FirstHit(p => Covers(glob, p, n), allowed) < |allowed| then PathDecision(true, Covered)
        else PathDecision(false, NotCovered)
  }

  /** A path is turned away as escaping exactly when it starts with a slash or backslash or its walk
    stands above the root after some beginning of it. */
  lemma EscapesIffDips(path: string, allowed: seq<string>, denied: seq<string>, glob: (string, string) -> bool)
    ensures IsPathAllowed(path, allowed, denied, glob).reason == Escapes <==>
      StartsWith(path, "/") || StartsWith(path, "\\") || Dips(Split(path, '/'))
  {
    hide Split, Dips, LooksEscaping, Join;
    var comps := Split(path, '/');
    var stack := Stack(comps);
    SplitPieces(path, '/');
    StackComponents(comps);
    StackFollowsWalk(comps);
    if stack != [] {
      TestsSeeStack(stack);
    } else {
      DotIsHarmless();
    }
  }

  lemma DotIsHarmless()
    ensures !LooksEscaping(".")
  {
    var framed := "/" + "." + "/";
    assert |framed| == 3;
  }

  /** A path is allowed exactly when it does not escape and, normalised, no deny pattern and some allow
    pattern covers it; and the reason given otherwise. */
  lemma AllowedMeaning(path: string, allowed: seq<string>, denied: seq<string>, glob: (string, string) -> bool)
    ensures var n := Normalize(path);
            IsPathAllowed(path, allowed, denied, glob).allowed <==>
              && !StartsWith(path, "/") && !StartsWith(path, "\\") && !Dips(Split(path, '/'))
              && !SomeCovers(glob, denied, n) && SomeCovers(glob, allowed, n)
    ensures var n := Normalize(path);
            var d := IsPathAllowed(path, allowed, denied, glob);
            d.reason != Escapes ==>
              && (SomeCovers(glob, denied, n) ==> exists i :: IsFirstCover(glob, denied, n, i) && d.reason == DeniedBy(denied[i]))
              && (!SomeCovers(glob, denied, n) ==>
                    d.reason == if allowed == [] then NoneConfigured else if SomeCovers(glob, allowed, n) then Covered else NotCovered)
  {
    hide Split, Dips, LooksEscaping, Normalize, Covers;
    EscapesIffDips(path, allowed, denied, glob);
    var n := Normalize(path);
    var d := FirstHit(p => Covers(glob, p, n), denied);
    if d < |denied| { assert IsFirstCover(glob, denied, n, d); }
    assert SomeCovers(glob, denied, n) <==> FirstHit(p => Covers(glob, p, n), denied) < |denied|;
    assert SomeCovers(glob, allowed, n) <==> FirstHit(p => Covers(glob, p, n), allowed) < |allowed|;
  }
}
