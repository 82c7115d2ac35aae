/** Splitting strings at a separator and joining names into dotted paths. */
module Text {

  /** The pieces of `s` between occurrences of `c`, empty pieces included. */
  function SplitOn(s: string, c: char): (pieces: seq<string>)
    ensures |pieces| >= 1
  {
    if s == "" then [""] else
    var rest := SplitOn(s[1..], c);
    if s[0] == c then [""] + rest else [[s[0]] + rest[0]] + rest[1..]
  }

  function NonEmpty(pieces: seq<string>): seq<string> {
    if pieces == [] then [] else (if pieces[0] == "" then [] else [pieces[0]]) + NonEmpty(pieces[1..])
  }

  /** Appends one name to a dotted path; the empty path has no separator. */
  function Extend(prefix: string, name: string): string {
    if prefix == "" then name else prefix + "." + name
  }

  /** The dotted path of a list of names. */
  function Render(names: seq<string>): string {
    if names == [] then "" else Extend(Render(names[..|names| - 1]), names[|names| - 1])
  }

  /** A GraphQL name: not empty, no dot (section 2.1.9 of the GraphQL Specification, October 2021). */
  predicate IsName(name: string) {
    name != "" && '.' !in name
  }

  predicate AreNames(names: seq<string>) {
    forall name <- names :: IsName(name)
  }

  lemma {:induction false} SplitPiece(s: string, c: char)
    requires c !in s
    ensures SplitOn(s, c) == [s]
  {
    if s != "" {
      SplitPiece(s[1..], c);
      assert s == [s[0]] + s[1..];
    }
  }

  lemma {:induction false} SplitConcat(a: string, c: char, b: string)
    ensures SplitOn(a + [c] + b, c) == SplitOn(a, c) + SplitOn(b, c)
  {
    var whole := a + [c] + b;
    if a == "" {
      assert whole[1..] == b;
    } else {
      assert whole[1..] == a[1..] + [c] + b;
      SplitConcat(a[1..], c, b);
    }
  }

  lemma {:induction false} RenderNonEmpty(names: seq<string>)
    requires names != [] && AreNames(names)
    ensures Render(names) != ""
  {
    assert IsName(names[|names| - 1]);
  }

  /** Splitting undoes rendering. */
  lemma {:induction false} SplitRender(names: seq<string>)
    requires names != [] && AreNames(names)
    ensures SplitOn(Render(names), '.') == names
  {
    var init, last := names[..|names| - 1], names[|names| - 1];
    assert IsName(last);
    SplitPiece(last, '.');
    if init != [] {
      RenderNonEmpty(init);
      SplitRender(init);
      SplitConcat(Render(init), '.', last);
    }
  }

  lemma {:induction false} NonEmptyNames(names: seq<string>)
    requires AreNames(names)
    ensures NonEmpty(names) == names
  {
    if names != [] {
      assert IsName(names[0]);
      NonEmptyNames(names[1..]);
    }
  }

  lemma RenderInjective(a: seq<string>, b: seq<string>)
    requires a != [] && b != [] && AreNames(a) && AreNames(b) && Render(a) == Render(b)
    ensures a == b
  {
    SplitRender(a);
    SplitRender(b);
  }

  /** The rendering of a list starts with the rendering of each of its prefixes. */
  lemma {:induction false} RenderPrefix(names: seq<string>, n: nat)
    requires n <= |names| && AreNames(names)
    ensures Render(names[..n]) <= Render(names)
    decreases |names|
  {
    if n == |names| {
      assert names[..n] == names;
    } else {
      var init := names[..|names| - 1];
      assert init[..n] == names[..n];
      RenderPrefix(init, n);
    }
  }
}
