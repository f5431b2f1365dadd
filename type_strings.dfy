// The text of a type-string global: a NUL-terminated byte array built from the
// rendered type through `str.c_str()`, so that the bytes stored are those a C
// string reader sees.

module TypeStrings {
  import opened IR

  predicate NoNul(s: Text) {
    forall k :: 0 <= k < |s| ==> s[k] != 0
  }

  /** The bytes before the first NUL (what `strlen` measures on `c_str()`, and what a C reader reads back). */
  function UpToNul(s: Text): (r: Text)
    ensures |r| <= |s| && r == s[..|r|]
    ensures NoNul(r)
    ensures |r| < |s| ==> s[|r|] == 0
  {
    if s == [] then []
    else if s[0] == 0 then []
    else [s[0]] + UpToNul(s[1..])
  }

  /** The initializer `ConstantDataArray::getString(ctx, str.c_str(), true)`: the C string plus its terminator. */
  function StringInitializer(s: Text): Text {
    UpToNul(s) + [0]
  }

  /**
   * What `getOrCreateGlobalTypeString` makes for the text `s`: a constant, private,
   * unnamed-address, align-1 array of `|s| + 1` bytes named `.str`, holding `s` as a C string.
   */
  predicate IsTypeString(g: GlobalVariable, s: Text) {
    g.name == ".str" &&
    g.valueType == Array(|s| + 1, I8) &&
    g.isConstant &&
    g.linkage == PrivateLinkage &&
    g.alignment == 1 &&
    g.unnamedAddr &&
    g.initializer == StringInitializer(s)
  }

  /** The initializer is a NUL-free prefix of the text followed by one NUL, at most `|s| + 1` bytes. */
  lemma StringInitializerShape(s: Text)
    ensures var r := StringInitializer(s);
            0 < |r| <= |s| + 1 && r[|r| - 1] == 0 &&
            r[..|r| - 1] == s[..|r| - 1] && NoNul(r[..|r| - 1])
  {
    var r := StringInitializer(s);
    assert r[..|r| - 1] == UpToNul(s);
  }

  /** A text without NUL bytes is its own C string. */
  lemma {:induction false} UpToNulOfNoNul(s: Text)
    requires NoNul(s)
    ensures UpToNul(s) == s
  {
    if s != [] {
      assert s[0] != 0;
      UpToNulOfNoNul(s[1..]);
    }
  }

  /**
   * Round trip: reading the initializer back up to its NUL gives the rendered
   * text, and the initializer fills the declared `|s| + 1` bytes, exactly when
   * the text holds no NUL byte.
   */
  lemma TypeStringRoundTrip(s: Text)
    ensures UpToNul(StringInitializer(s)) == UpToNul(s)
    ensures NoNul(s) ==> UpToNul(StringInitializer(s)) == s
    ensures |StringInitializer(s)| == |s| + 1 <==> NoNul(s)
  {
    var r := UpToNul(s);
    UpToNulOfNoNul(r);
    UpToNulOfTerminated(r);
    if NoNul(s) {
      UpToNulOfNoNul(s);
    }
    if |r| == |s| {
      assert r == s;
    }
  }

  /** Reading `r + [0]` stops at the appended NUL when `r` has none. */
  lemma {:induction false} UpToNulOfTerminated(r: Text)
    requires NoNul(r)
    ensures UpToNul(r + [0]) == r
  {
    if r != [] {
      assert (r + [0])[1..] == r[1..] + [0];
      UpToNulOfTerminated(r[1..]);
    }
  }

  /** Stored and read back, the global's bytes give back its text. */
  lemma TypeStringContents(g: GlobalVariable, s: Text)
    requires IsTypeString(g, s) && NoNul(s)
    ensures |g.initializer| == |s| + 1 && g.initializer[|s|] == 0
    ensures UpToNul(g.initializer) == s
  {
    UpToNulOfNoNul(s);
    TypeStringRoundTrip(s);
  }
}
