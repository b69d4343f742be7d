/** The lexical path operations of Go's `path/filepath` and `strings` packages
    that the roster code relies on, for the slash separator of Unix systems. */
module Paths {

  const Separator: char := '/'

  /** strings.TrimPrefix: `s` without the leading `prefix`, or `s` itself when
      it does not start with `prefix`. */
  function TrimPrefix(s: string, prefix: string): (r: string)
    ensures prefix <= s ==> prefix + r == s
    ensures !(prefix <= s) ==> r == s
  {
    if prefix <= s then s[|prefix|..] else s
  }

  /** `p` with every trailing separator removed. */
  function TrimTrailingSeparators(p: string): (r: string)
    ensures r <= p
    ensures r == [] || r[|r| - 1] != Separator
    ensures forall k :: |r| <= k < |p| ==> p[k] == Separator
  {
    if p != [] && p[|p| - 1] == Separator then TrimTrailingSeparators(p[..|p| - 1]) else p
  }

  /** The index just after the last separator of `p`, or 0 when it has none. */
  function LastElementStart(p: string): (i: nat)
    ensures i <= |p|
    ensures forall k :: i <= k < |p| ==> p[k] != Separator
    ensures i > 0 ==> p[i - 1] == Separator
  {
    if p == [] then 0
    else if p[|p| - 1] == Separator then |p|
    else LastElementStart(p[..|p| - 1])
  }

  /** filepath.Base: the last element of `p` once trailing separators are
      dropped; "." for the empty path and "/" for a path of separators only. */
  function Base(p: string): (b: string)
    ensures b != []
    ensures b == "/" || Separator !in b
  {
    if p == [] then "."
    else
      var q := TrimTrailingSeparators(p);
      if q == [] then "/" else q[LastElementStart(q)..]
  }

  /** `p` cut at every separator: "a//b/" gives ["a", "", "b", ""]. */
  function Split(p: string): (parts: seq<string>)
    ensures |parts| >= 1
    decreases |p|
  {
    var i := LastElementStart(p);
    if i == 0 then [p] else Split(p[..i - 1]) + [p[i..]]
  }

  /** The elements that survive filepath.Clean's rules: empty and "." elements
      vanish, ".." cancels the element before it, a ".." that has nothing to
      cancel is dropped at the root and kept in a relative path. */
  function Resolve(elems: seq<string>, rooted: bool): seq<string> {
    if elems == [] then []
    else
      var stack := Resolve(elems[..|elems| - 1], rooted);
      var e := elems[|elems| - 1];
      if e == "" || e == "." then stack
      else if e == ".." then
        if stack != [] && stack[|stack| - 1] != ".." then stack[..|stack| - 1]
        else if rooted then stack
        else stack + [".."]
      else stack + [e]
  }

  /** The elements joined by single separators. */
  function Join(elems: seq<string>): string {
    if elems == [] then ""
    else if |elems| == 1 then elems[0]
    else Join(elems[..|elems| - 1]) + [Separator] + elems[|elems| - 1]
  }

  /** filepath.Clean: the shortest lexically equivalent path; "." for a path
      that resolves to nothing. */
  function Clean(p: string): (c: string)
    ensures c != []
  {
    var rooted := p != [] && p[0] == Separator;
    var body := Join(Resolve(Split(p), rooted));
    if rooted then [Separator] + body
    else if body == [] then "."
    else body
  }

  /** filepath.Dir: everything up to the last separator, cleaned. */
  function Dir(p: string): (d: string)
    ensures d != []
  {
    Clean(p[..LastElementStart(p)])
  }

  /** A single element is its own base name. */
  lemma BaseOfElement(name: string)
    requires name != [] && Separator !in name
    ensures Base(name) == name
  {
    assert name[|name| - 1] in name;
    assert TrimTrailingSeparators(name) == name;
  }

  /** The base name of a path is its element after the last separator. */
  lemma BaseOfChild(dir: string, name: string)
    requires name != [] && Separator !in name
    ensures Base(dir + [Separator] + name) == name
  {
    var p := dir + [Separator] + name;
    assert p[|p| - 1] == name[|name| - 1];
    assert TrimTrailingSeparators(p) == p;
    var i := LastElementStart(p);
    assert p[|dir|] == Separator;
    assert i == |dir| + 1;
    assert p[i..] == name;
  }
}
