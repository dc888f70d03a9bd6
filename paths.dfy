/** The path operations ftp.py applies: the quote stripping at the top of
    `send_file`, and `os.path.basename` / `os.path.join` with POSIX
    semantics. */
module Paths {
  import opened Wire

  /** Both ends of `s` are the character `q` (a single `q` counts). */
  predicate Wrapped(s: Text, q: Char8) {
    |s| > 0 && s[0] == q && s[|s| - 1] == q
  }

  /** `if s.startswith(q) and s.endswith(q): s = s[1:-1]`.  A lone `q` becomes
      the empty text, as Python's slice does. */
  function StripPair(s: Text, q: Char8): (r: Text)
    ensures !Wrapped(s, q) ==> r == s
    ensures Wrapped(s, q) && |s| >= 2 ==> s == [q] + r + [q]
    ensures Wrapped(s, q) && |s| < 2 ==> r == []
  {
    if Wrapped(s, q) then (if |s| == 1 then [] else s[1..|s| - 1]) else s
  }

  /** The path clean-up of `send_file`: one pair of double quotes, then one
      pair of single quotes. */
  function StripQuotes(path: Text): Text {
    StripPair(StripPair(path, '"'), '\'')
  }

  /** A path that is not wrapped in either kind of quote is used as typed. */
  lemma StripQuotesUnquoted(path: Text)
    requires !Wrapped(path, '"') && !Wrapped(path, '\'')
    ensures StripQuotes(path) == path
  {
  }

  /** Double quotes outside single quotes are both removed. */
  lemma StripQuotesNested(t: Text)
    ensures StripQuotes("\"'" + t + "'\"") == t
  {
    var s: Text := "\"'" + t + "'\"";
    var inner: Text := "'" + t + "'";
    assert s[1..|s| - 1] == inner;
    assert inner[1..|inner| - 1] == t;
  }

  /** Only one pair of double quotes is removed. */
  lemma StripQuotesOnce(t: Text)
    ensures StripQuotes("\"\"" + t + "\"\"") == "\"" + t + "\""
  {
    var s: Text := "\"\"" + t + "\"\"";
    var inner: Text := "\"" + t + "\"";
    assert s[1..|s| - 1] == inner;
    assert inner[0] == '"';
  }

  /** Single quotes are stripped after double quotes, so single quotes outside
      double quotes leave the double quotes in place. */
  lemma StripQuotesSingleOutside(t: Text)
    ensures StripQuotes("'\"" + t + "\"'") == "\"" + t + "\""
  {
    var s: Text := "'\"" + t + "\"'";
    assert s[0] == '\'';
    assert s[1..|s| - 1] == "\"" + t + "\"";
  }

  /** One pair removal drops at most one character from each end. */
  lemma StripPairInfix(s: Text, q: Char8)
    ensures var r := StripPair(s, q);
      var k := if Wrapped(s, q) && |s| >= 2 then 1 else 0;
      |s| - 2 <= |r| <= |s| && k + |r| <= |s| && r == s[k..k + |r|]
      && (r != [] ==> |s| - |r| == 2 * k)
  {
  }

  /** The clean-up removes at most two characters from each end and keeps the
      middle of the path in order. */
  lemma StripQuotesInfix(path: Text)
    ensures var r := StripQuotes(path);
      var k := (|path| - |r|) / 2;
      |path| - 4 <= |r| <= |path| && k <= 2 && r == path[k..k + |r|]
  {
    var m := StripPair(path, '"');
    var r := StripPair(m, '\'');
    StripPairInfix(path, '"');
    StripPairInfix(m, '\'');
    var k1 := if Wrapped(path, '"') && |path| >= 2 then 1 else 0;
    var k2 := if Wrapped(m, '\'') && |m| >= 2 then 1 else 0;
    assert r == path[k1 + k2..k1 + k2 + |r|];
    if r != [] {
      assert (|path| - |r|) / 2 == k1 + k2;
    }
  }

  /** `os.path.basename`: the text after the last '/'. */
  function Basename(p: Text): Text {
    if p == [] then []
    else if p[|p| - 1] == '/' then []
    else Basename(p[..|p| - 1]) + [p[|p| - 1]]
  }

  /** The base name holds no '/', ends the path, and is either the whole path
      or preceded by a '/'. */
  lemma {:induction false} BasenameSpec(p: Text)
    ensures var b := Basename(p);
      && '/' !in b
      && |b| <= |p| && p[|p| - |b|..] == b
      && (|b| == |p| || p[|p| - |b| - 1] == '/')
    decreases |p|
  {
    if p != [] && p[|p| - 1] != '/' {
      var q := p[..|p| - 1];
      BasenameSpec(q);
      var b := Basename(p);
      assert b == Basename(q) + [p[|p| - 1]];
      assert p[|p| - |b|..] == q[|q| - |Basename(q)|..] + [p[|p| - 1]];
    }
  }

  /** `os.path.join(a, b)`: an absolute `b` replaces `a`; otherwise a '/' is
      inserted unless `a` is empty or already ends with one. */
  function Join(a: Text, b: Text): (r: Text)
    ensures |b| > 0 && b[0] == '/' ==> r == b
    ensures (|b| == 0 || b[0] != '/') && |a| > 0 && a[|a| - 1] != '/' ==> r == a + "/" + b
  {
    if |b| > 0 && b[0] == '/' then b
    else if |a| == 0 || a[|a| - 1] == '/' then a + b
    else a + "/" + b
  }

  /** A base name lands directly inside the receiving folder. */
  lemma JoinRecvBasename(p: Text)
    ensures Join(FOLDER_RECV, Basename(p)) == FOLDER_RECV + "/" + Basename(p)
  {
    var b := Basename(p);
    BasenameSpec(p);
    assert |b| > 0 ==> b[0] in b;
  }

  /** A base name a regular file can have: "", "." and ".." name a folder
      (a path ending in '/', the folder itself, its parent), so open() in
      either program fails on them. */
  predicate ProperName(name: Text) {
    name != [] && name != "." && name != ".."
  }

  /** The name after the last '/' of a joined path is the name joined. */
  lemma {:induction false} BasenameAfterSlash(a: Text, b: Text)
    requires '/' !in b
    ensures Basename(a + "/" + b) == b
    decreases |b|
  {
    var p := a + "/" + b;
    if b != [] {
      var c := b[|b| - 1];
      assert c in b;
      assert p[|p| - 1] == c;
      var init := b[..|b| - 1];
      assert forall x :: x in init ==> x in b;
      assert p[..|p| - 1] == a + "/" + init;
      BasenameAfterSlash(a, init);
      assert b == init + [c];
    }
  }

  /** A name without '/' is found again as the base name of its path in the
      receiving folder. */
  lemma JoinRecvBasenameBack(b: Text)
    requires '/' !in b
    ensures Basename(Join(FOLDER_RECV, b)) == b
  {
    assert |b| > 0 ==> b[0] in b;
    BasenameAfterSlash(FOLDER_RECV, b);
  }

  /** Different names without a '/' get different destination paths. */
  lemma JoinRecvInjective(a: Text, b: Text)
    requires '/' !in a && '/' !in b
    requires a != b
    ensures Join(FOLDER_RECV, a) != Join(FOLDER_RECV, b)
  {
    assert |a| > 0 ==> a[0] in a;
    assert |b| > 0 ==> b[0] in b;
    var pre: Text := FOLDER_RECV + "/";
    var x, y := Join(FOLDER_RECV, a), Join(FOLDER_RECV, b);
    assert x == pre + a && y == pre + b;
    assert x[|pre|..] == a;
    assert y[|pre|..] == b;
  }
}
