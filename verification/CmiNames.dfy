/** Naming of compiled module interfaces by the default resolver. */
module CmiNames {
  import opened Octets

  const DOT_REPLACE: char := ','
  const COLON_REPLACE: char := '-'
  const SUFFIX := ".cmi"

  predicate Absolute(name: string) {
    name != "" && name[0] == '/'
  }

  /** Header units are named by a path that is absolute or starts with "./". */
  predicate IsHeader(name: string) {
    Absolute(name) || "./" <= name
  }

  /** The characters `c c` make up a whole directory at `i`. */
  predicate PairAt(s: string, i: int, c: char) {
    1 <= i && i + 2 < |s| && s[i - 1] == '/' && s[i] == c && s[i + 1] == c && s[i + 2] == '/'
  }

  function RedirectedAt(s: string, from: char, to: char, limit: int, i: nat): char
    requires i < |s|
  {
    if (i < limit && PairAt(s, i, from)) || (i - 1 < limit && PairAt(s, i - 1, from)) then to
    else s[i]
  }

  /** Every directory `from from` that starts before `limit`, rewritten to `to to`. */
  function Redirected(s: string, from: char, to: char, limit: int): (r: string)
    ensures |r| == |s|
    ensures forall i | 0 <= i < |s| :: r[i] == RedirectedAt(s, from, to, limit, i)
  {
    seq(|s|, i requires 0 <= i < |s| => RedirectedAt(s, from, to, limit, i))
  }

  /** What a header name looks like before its ".." directories are replaced. */
  function Rooted(name: string): string
    requires IsHeader(name)
  {
    if Absolute(name) then "." + name else [DOT_REPLACE] + name[1..]
  }

  /** A named module has its partition colon replaced; there is at most one. */
  function Uncoloned(name: string, from: nat): (r: string)
    requires from <= |name|
    ensures |r| == |name|
    decreases |name| - from
  {
    if from == |name| then name
    else if name[from] == ':' then name[from := COLON_REPLACE]
    else Uncoloned(name, from + 1)
  }

  function CmiName(name: string): string {
    (if IsHeader(name) then Redirected(Rooted(name), '.', DOT_REPLACE, |Rooted(name)|)
     else Uncoloned(name, 0))
    + SUFFIX
  }

  method Find(s: string, c: char, from: nat) returns (ix: nat)
    requires from <= |s|
    ensures from <= ix <= |s|
    ensures forall k | from <= k < ix :: s[k] != c
    ensures ix < |s| ==> s[ix] == c
  {
    ix := from;
    while ix < |s| && s[ix] != c
      invariant from <= ix <= |s|
      invariant forall k | from <= k < ix :: s[k] != c
    {
      ix := ix + 1;
    }
  }

  lemma SkipDots(s: string, from: nat, to: nat)
    requires from <= to <= |s|
    requires forall k | from <= k < to ::
      Redirected(s, '.', DOT_REPLACE, from)[k] != '.'
    ensures Redirected(s, '.', DOT_REPLACE, to) == Redirected(s, '.', DOT_REPLACE, from)
  {
    forall k | from <= k < to ensures !PairAt(s, k, '.') {
      var t := Redirected(s, '.', DOT_REPLACE, from);
      assert t[k] != '.';
    }
  }

  lemma {:induction false} UncolonedAt(name: string, from: nat, colon: nat)
    requires from <= colon <= |name|
    requires forall k | from <= k < colon :: name[k] != ':'
    requires colon < |name| ==> name[colon] == ':'
    ensures Uncoloned(name, from) == if colon < |name| then name[colon := COLON_REPLACE] else name
    decreases |name| - from
  {
    if from < colon { UncolonedAt(name, from + 1, colon); }
  }

  method GetCMIName(name: string) returns (result: string)
    requires name != ""
    ensures result == CmiName(name)
  {
    var isHeader, isAbs := false, false;
    if name[0] == '/' {
      isHeader, isAbs := true, true;
    } else if name[0] == '.' && |name| > 1 && name[1] == '/' {
      isHeader := true;
    }
    assert isHeader <==> IsHeader(name);
    if isAbs {
      result := ".";
      result := result + name;
    } else {
      result := name;
    }
    if isHeader {
      if !isAbs {
        result := result[0 := DOT_REPLACE];
        assert result == [DOT_REPLACE] + name[1..];
      }
      result := ReplaceDots(result);
    } else {
      var colon := Find(result, ':', 0);
      UncolonedAt(name, 0, colon);
      if colon != |result| {
        result := result[colon := COLON_REPLACE];
      }
    }
    result := result + ".";
    result := result + "cmi";
    assert "." + "cmi" == SUFFIX;
  }

  /** The in-place loop over the dots. */
  method ReplaceDots(start: string) returns (result: string)
    requires start != ""
    ensures result == Redirected(start, '.', DOT_REPLACE, |start|)
  {
    result := start;
    var ix := 1;
    assert Redirected(start, '.', DOT_REPLACE, 1) == start;
    while true
      invariant 1 <= ix <= |start|
      invariant result == Redirected(start, '.', DOT_REPLACE, ix)
      decreases |start| - ix
    {
      var dot := Find(result, '.', ix);
      SkipDots(start, ix, dot);
      ix := dot;
      if ix == |result| {
        break;
      }
      if ix + 2 > |result| {
        NoPairFrom(start, ix);
        break;
      }
      DotStep(start, ix);
      if result[ix + 1] == '.' && result[ix - 1] == '/' && ix + 2 < |result| && result[ix + 2] == '/' {
        result := result[ix := DOT_REPLACE];
        result := result[ix + 1 := DOT_REPLACE];
      }
      ix := ix + 1;
    }
  }

  lemma NoPairFrom(s: string, ix: nat)
    requires |s| < ix + 2
    ensures Redirected(s, '.', DOT_REPLACE, |s|) == Redirected(s, '.', DOT_REPLACE, ix)
  {
  }

  /** Replacements made further left do not disturb the test made at `ix`. */
  lemma DotStep(s: string, ix: nat)
    requires 1 <= ix < |s|
    requires Redirected(s, '.', DOT_REPLACE, ix)[ix] == '.'
    ensures var t := Redirected(s, '.', DOT_REPLACE, ix);
      && (PairAt(s, ix, '.') <==> PairAt(t, ix, '.'))
      && Redirected(s, '.', DOT_REPLACE, ix + 1) ==
         if PairAt(s, ix, '.') then t[ix := DOT_REPLACE][ix + 1 := DOT_REPLACE] else t
  {
    var t := Redirected(s, '.', DOT_REPLACE, ix);
    assert t[ix] == '.' && s[ix] == '.';
    assert t[ix - 1] == '/' <==> s[ix - 1] == '/';
    if ix + 1 < |s| { assert t[ix + 1] == s[ix + 1]; }
    if ix + 2 < |s| { assert t[ix + 2] == s[ix + 2]; }
    var u := if PairAt(s, ix, '.') then t[ix := DOT_REPLACE][ix + 1 := DOT_REPLACE] else t;
    var r := Redirected(s, '.', DOT_REPLACE, ix + 1);
    assert forall k | 0 <= k < |s| :: r[k] == u[k];
  }

  // ---- What the names look like ----

  /** One of the dots of a ".." directory. */
  predicate DotDotDot(s: string, i: nat) {
    || (1 <= i && i + 2 < |s| && s[i - 1..i + 3] == "/../")
    || (2 <= i && i + 1 < |s| && s[i - 2..i + 2] == "/../")
  }

  lemma PairSpelled(s: string, i: int)
    ensures PairAt(s, i, '.') <==> 1 <= i && i + 2 < |s| && s[i - 1..i + 3] == "/../"
  {
    if 1 <= i && i + 2 < |s| {
      assert s[i - 1..i + 3] == [s[i - 1], s[i], s[i + 1], s[i + 2]];
    }
  }

  /** The CMI name of a header unit: a dot is put before an absolute path, a comma in place of
      the dot a relative one starts with, and commas in place of the dots of ".." directories. */
  lemma HeaderNamed(name: string)
    requires name != "" && (name[0] == '/' || (|name| > 1 && name[0] == '.' && name[1] == '/'))
    ensures var s := if name[0] == '/' then "." + name else "," + name[1..];
      && |CmiName(name)| == |s| + 4 && CmiName(name)[|s|..] == ".cmi"
      && forall i | 0 <= i < |s| :: CmiName(name)[i] == if DotDotDot(s, i) then ',' else s[i]
  {
    var s := Rooted(name);
    var t := Redirected(s, '.', DOT_REPLACE, |s|);
    assert CmiName(name) == t + SUFFIX;
    forall i | 0 <= i < |s| ensures t[i] == if DotDotDot(s, i) then ',' else s[i] {
      PairSpelled(s, i);
      PairSpelled(s, i - 1);
      assert t[i] == RedirectedAt(s, '.', DOT_REPLACE, |s|, i);
    }
  }

  /** The CMI name of a named module: its first colon becomes a dash. */
  lemma ModuleNamed(a: string, b: string)
    requires ':' !in a
    requires a != "" ==> a[0] != '/' && !(|a| > 1 && a[0] == '.' && a[1] == '/')
    ensures CmiName(a) == a + ".cmi"
    ensures CmiName(a + ":" + b) == a + "-" + b + ".cmi"
  {
    var name := a + ":" + b;
    assert forall k | 0 <= k < |a| :: name[k] == a[k];
    UncolonedAt(a, 0, |a|);
    UncolonedAt(name, 0, |a|);
    assert name[|a| := '-'] == a + "-" + b;
  }

  // ---- Confinement ----

  /** A ".." component at position `i`. */
  predicate DotDotAt(s: string, i: int) {
    && 0 <= i && i + 2 <= |s| && s[i] == '.' && s[i + 1] == '.'
    && (i == 0 || s[i - 1] == '/')
    && (i + 2 == |s| || s[i + 2] == '/')
  }

  /** A relative path with no ".." component, so one that stays below its starting point. */
  predicate Confined(path: string) {
    path != "" && path[0] != '/' && forall i | 0 <= i < |path| :: !DotDotAt(path, i)
  }

  /** A ".." directory: a component that is followed by a separator. */
  predicate Climbs(name: string) {
    exists i | 0 <= i < |name| - 2 :: DotDotAt(name, i)
  }

  lemma NoClimbInside(s: string, t: string, i: nat)
    requires t == Redirected(s, '.', DOT_REPLACE, |s|)
    requires i > 0 && i + 2 < |t|
    ensures !(t[i - 1] == '/' && t[i] == '.' && t[i + 1] == '.' && t[i + 2] == '/')
  {
  }

  /** The suffix keeps the last component from being "..". */
  lemma NoClimbAtEnd(t: string, i: nat)
    requires i + 2 >= |t| && i < |t| + |SUFFIX|
    ensures !DotDotAt(t + SUFFIX, i)
  {
    var r := t + SUFFIX;
    assert r[|t|] == '.' && r[|t| + 1] == 'c' && r[|t| + 2] == 'm' && r[|t| + 3] == 'i';
  }

  lemma HeaderConfined(name: string)
    requires IsHeader(name)
    ensures Confined(CmiName(name))
  {
    var s := Rooted(name);
    var t := Redirected(s, '.', DOT_REPLACE, |s|);
    var r := t + SUFFIX;
    assert r == CmiName(name);
    assert s[1] == '/' && s[0] != '/';
    assert t[0] == s[0] && t[1] == '/' && r[0] == t[0] && r[1] == '/';
    forall i | 0 <= i < |r| ensures !DotDotAt(r, i) {
      if i + 2 >= |t| {
        NoClimbAtEnd(t, i);
      } else if i > 0 {
        NoClimbInside(s, t, i);
      }
    }
  }

  /** The CMI name stays in the repository exactly for header units and for names that do
      not climb: a name such as "../x" is no header unit and is not rewritten. */
  lemma ConfinedIff(name: string)
    requires name != ""
    ensures Confined(CmiName(name)) <==> IsHeader(name) || !Climbs(name)
  {
    if IsHeader(name) {
      HeaderConfined(name);
    } else {
      var t := Uncoloned(name, 0);
      var r := CmiName(name);
      UncolonedPaths(name, 0);
      forall i | 0 <= i < |r| ensures DotDotAt(r, i) <==> i < |name| - 2 && DotDotAt(name, i) {
        assert forall k | 0 <= k < |t| :: r[k] == t[k];
        assert r[|t|] == '.' && r[|t| + 1] == 'c' && r[|t| + 2] == 'm' && r[|t| + 3] == 'i';
        assert forall k | 0 <= k < |t| && (t[k] == '.' || t[k] == '/') :: name[k] == t[k];
        if i < |t| {
          assert (r[i] == '.') == (name[i] == '.');
        }
      }
      assert r[0] == t[0];
    }
  }

  /** A name that leaves the repository. */
  lemma ParentEscapes()
    ensures CmiName("../x") == "../x.cmi" && !Confined(CmiName("../x"))
  {
    UncolonedAt("../x", 0, 4);
    assert "../x" + SUFFIX == "../x.cmi";
    assert DotDotAt("../x.cmi", 0);
  }

  lemma {:induction false} UncolonedPaths(name: string, from: nat)
    requires from <= |name|
    ensures forall k | 0 <= k < |name| ::
      Uncoloned(name, from)[k] == name[k] ||
      (name[k] == ':' && Uncoloned(name, from)[k] == COLON_REPLACE)
    decreases |name| - from
  {
    if from < |name| && name[from] != ':' { UncolonedPaths(name, from + 1); }
  }

  // ---- Distinctness ----

  /** The header name a CMI name came from. */
  function Recovered(cmi: string): string
    requires |cmi| >= |SUFFIX| + 1
  {
    var t := cmi[..|cmi| - |SUFFIX|];
    var s := Redirected(t, DOT_REPLACE, '.', |t|);
    if s[0] == '.' then s[1..] else "." + s[1..]
  }

  lemma PairsTraded(s: string, t: string, from: char, to: char, i: nat)
    requires from != to && from != '/' && to != '/'
    requires t == Redirected(s, from, to, |s|)
    requires !PairAt(s, i, to)
    ensures PairAt(t, i, to) <==> PairAt(s, i, from)
  {
    if i >= 1 && i + 2 < |s| {
      assert t[i - 1] == '/' <==> s[i - 1] == '/';
      assert t[i + 2] == '/' <==> s[i + 2] == '/';
    }
  }

  predicate HasPair(s: string, c: char) {
    exists i | 0 <= i < |s| :: PairAt(s, i, c)
  }

  /** Rewriting directories is undone by rewriting them back, if there were none to confuse. */
  lemma RedirectedBack(s: string, t: string, from: char, to: char)
    requires from != to && from != '/' && to != '/'
    requires t == Redirected(s, from, to, |s|) && !HasPair(s, to)
    ensures Redirected(t, to, from, |t|) == s
  {
    var r := Redirected(t, to, from, |t|);
    forall i | 0 <= i < |s| ensures r[i] == s[i] {
      PairsTraded(s, t, from, to, i);
      if i > 0 { PairsTraded(s, t, from, to, i - 1); }
      assert r[i] == RedirectedAt(t, to, from, |t|, i);
      assert t[i] == RedirectedAt(s, from, to, |s|, i);
    }
  }

  /** No directory is left to rewrite. */
  lemma RedirectedAll(s: string, from: char, to: char)
    requires from != to
    ensures !HasPair(Redirected(s, from, to, |s|), from)
  {
    var t := Redirected(s, from, to, |s|);
    forall i | 0 <= i < |t| ensures !PairAt(t, i, from) {
      assert t[i] == RedirectedAt(s, from, to, |s|, i);
    }
  }

  lemma RootedPairs(name: string, c: char)
    requires IsHeader(name) && c != '/'
    ensures HasPair(Rooted(name), c) <==> HasPair(name, c)
  {
    var s := Rooted(name);
    var shift := if Absolute(name) then 1 else 0;
    assert forall k | 1 - shift <= k < |name| :: s[k + shift] == name[k];
    if i :| 0 <= i < |s| && PairAt(s, i, c) {
      assert PairAt(name, i - shift, c);
    }
    if i :| 0 <= i < |name| && PairAt(name, i, c) {
      assert PairAt(s, i + shift, c);
    }
  }

  predicate HasCommas(name: string) {
    HasPair(name, DOT_REPLACE)
  }

  /** The name is recovered exactly when it has no ",," directory of its own. */
  lemma RecoveredIff(name: string)
    requires IsHeader(name)
    ensures |CmiName(name)| >= |SUFFIX| + 1
    ensures Recovered(CmiName(name)) == name <==> !HasCommas(name)
  {
    var s := Rooted(name);
    var t := Redirected(s, '.', DOT_REPLACE, |s|);
    var r := CmiName(name);
    assert r == t + SUFFIX && r[..|r| - |SUFFIX|] == t;
    RootedPairs(name, DOT_REPLACE);
    if !HasCommas(name) {
      RedirectedBack(s, t, '.', DOT_REPLACE);
      assert name == if Absolute(name) then s[1..] else "." + s[1..];
    } else {
      var i :| 0 <= i < |s| && PairAt(s, i, DOT_REPLACE);
      CommasLost(s, t, i);
      var u := Redirected(t, DOT_REPLACE, '.', |t|);
      assert i >= 2 by { assert s[0] != '/'; }
      var back := Recovered(r);
      RedirectedHead(s, '.', DOT_REPLACE, |s|);
      RedirectedHead(t, DOT_REPLACE, '.', |t|);
      if Absolute(name) {
        assert back == u[1..];
        assert back[i - 1] == u[i] && name[i - 1] == s[i];
      } else {
        assert back == "." + u[1..];
        assert back[i] == u[i] && name[i] == s[i];
      }
    }
  }

  lemma RedirectedHead(s: string, from: char, to: char, limit: int)
    requires s != ""
    ensures Redirected(s, from, to, limit)[0] == s[0]
  {
    assert Redirected(s, from, to, limit)[0] == RedirectedAt(s, from, to, limit, 0);
  }

  lemma CommasLost(s: string, t: string, i: nat)
    requires t == Redirected(s, '.', DOT_REPLACE, |s|)
    requires PairAt(s, i, DOT_REPLACE)
    ensures Redirected(t, DOT_REPLACE, '.', |t|)[i] == '.'
  {
    assert t[i - 1] == '/' && t[i] == DOT_REPLACE && t[i + 1] == DOT_REPLACE && t[i + 2] == '/';
    assert PairAt(t, i, DOT_REPLACE);
  }

  /** Header names without ",," directories never share a CMI name. */
  lemma HeadersDistinct(a: string, b: string)
    requires IsHeader(a) && IsHeader(b) && !HasCommas(a) && !HasCommas(b)
    requires CmiName(a) == CmiName(b)
    ensures a == b
  {
    RecoveredIff(a);
    RecoveredIff(b);
  }

  /** What is recovered is itself a header name without such directories, and has the CMI name
      it was recovered from. */
  lemma RecoveredShares(name: string)
    requires IsHeader(name)
    ensures |CmiName(name)| >= |SUFFIX| + 1
    ensures var back := Recovered(CmiName(name));
      IsHeader(back) && !HasCommas(back) && CmiName(back) == CmiName(name)
  {
    var s, r := Rooted(name), CmiName(name);
    var t := Redirected(s, '.', DOT_REPLACE, |s|);
    var u := Redirected(t, DOT_REPLACE, '.', |t|);
    assert r == t + SUFFIX && r[..|r| - |SUFFIX|] == t;
    RedirectedHead(s, '.', DOT_REPLACE, |s|);
    RedirectedHead(t, DOT_REPLACE, '.', |t|);
    RedirectedSlash(s, '.', DOT_REPLACE, |s|);
    RedirectedSlash(t, DOT_REPLACE, '.', |t|);
    RecoveredRooted(u);
    RedirectedAll(s, '.', DOT_REPLACE);
    RedirectedBack(t, u, DOT_REPLACE, '.');
    RedirectedAll(t, DOT_REPLACE, '.');
    RootedPairs(Recovered(r), DOT_REPLACE);
  }

  lemma RedirectedSlash(s: string, from: char, to: char, limit: int)
    requires |s| >= 2 && s[1] == '/' && from != '/'
    ensures Redirected(s, from, to, limit)[1] == '/'
  {
    assert Redirected(s, from, to, limit)[1] == RedirectedAt(s, from, to, limit, 1);
  }

  /** A rooted path is that of the name it stands for. */
  lemma RecoveredRooted(u: string)
    requires |u| >= 2 && u[1] == '/' && (u[0] == '.' || u[0] == DOT_REPLACE)
    ensures var back := if u[0] == '.' then u[1..] else "." + u[1..];
      IsHeader(back) && Rooted(back) == u
  {
    if u[0] == '.' {
      assert u == "." + u[1..];
    } else {
      var back := "." + u[1..];
      assert "./" <= back && back[1..] == u[1..];
      assert u == [DOT_REPLACE] + u[1..];
    }
  }

  /** A header name shares its CMI name with another one without ",," directories exactly when
      it has such a directory itself. */
  lemma SharedIff(name: string)
    requires IsHeader(name)
    ensures HasCommas(name) <==>
      exists other :: IsHeader(other) && !HasCommas(other) && other != name && CmiName(other) == CmiName(name)
  {
    RecoveredShares(name);
    if !HasCommas(name) {
      forall other | IsHeader(other) && !HasCommas(other) && CmiName(other) == CmiName(name)
        ensures other == name
      {
        HeadersDistinct(other, name);
      }
    }
  }

  /** With such directories they can: the map is not injective on all header names. */
  lemma CommasCollide()
    ensures IsHeader("/../x") && IsHeader("/,,/x") && CmiName("/../x") == CmiName("/,,/x")
  {
    var a, b := Rooted("/../x"), Rooted("/,,/x");
    assert a == "./../x" && b == "./,,/x";
    assert PairAt(a, 2, '.');
    assert Redirected(a, '.', DOT_REPLACE, 6) == b;
    assert Redirected(b, '.', DOT_REPLACE, 6) == b;
  }

  lemma SevenBitSuffixed(t: string)
    ensures SevenBit(t + SUFFIX) <==> SevenBit(t)
  {
    assert forall k | 0 <= k < |t| :: (t + SUFFIX)[k] == t[k];
    assert forall k | 0 <= k < |SUFFIX| :: SUFFIX[k] < '\U{80}';
  }

  lemma SevenBitRedirected(s: string, limit: int)
    ensures SevenBit(Redirected(s, '.', DOT_REPLACE, limit)) <==> SevenBit(s)
  {
    var t := Redirected(s, '.', DOT_REPLACE, limit);
    assert forall k | 0 <= k < |s| :: t[k] == RedirectedAt(s, '.', DOT_REPLACE, limit, k);
    assert forall k | 0 <= k < |s| :: t[k] < '\U{80}' <==> s[k] < '\U{80}';
  }

  lemma SevenBitRooted(name: string)
    requires IsHeader(name)
    ensures SevenBit(Rooted(name)) <==> SevenBit(name)
  {
    var s := Rooted(name);
    if Absolute(name) {
      assert forall k | 0 <= k < |name| :: s[k + 1] == name[k];
      assert forall k | 1 <= k < |s| :: s[k] == name[k - 1];
    } else {
      assert forall k | 1 <= k < |name| :: s[k] == name[k];
      assert name[0] == '.';
    }
  }

  lemma CmiNameSevenBit(name: string)
    ensures SevenBit(CmiName(name)) <==> SevenBit(name)
  {
    if IsHeader(name) {
      var s := Rooted(name);
      SevenBitRooted(name);
      SevenBitRedirected(s, |s|);
      SevenBitSuffixed(Redirected(s, '.', DOT_REPLACE, |s|));
    } else {
      var t := Uncoloned(name, 0);
      UncolonedPaths(name, 0);
      SevenBitSuffixed(t);
      assert forall k | 0 <= k < |name| :: name[k] < '\U{80}' <==> t[k] < '\U{80}';
    }
  }
}
