/**
 * The `className` string of an element, edited the way `addClass` and
 * `removeClass` edit it: appending a token, and deleting the leftmost
 * whole-token occurrence together with the whitespace around it.
 */
module ClassNames {
  import opened Wrappers
  import opened Strings

  /** Characters with a meaning in regular-expression syntax. */
  predicate IsPatternChar(c: char)
  {
    c in "\\^$.|?*+()[]{}"
  }

  /**
   * A class name that `removeClass` can splice into its pattern unchanged: one
   * token, without whitespace and without pattern characters.
   */
  predicate IsClassName(name: string)
  {
    |name| >= 1 && forall i :: 0 <= i < |name| ==> !IsWhitespace(name[i]) && !IsPatternChar(name[i])
  }

  /** `addClass`: the class string with a space (when it is not empty) and the name appended. */
  function WithClass(cls: string, name: string): (r: string)
    ensures cls == "" ==> r == name
    ensures cls != "" ==> |r| == |cls| + 1 + |name| && r[..|cls|] == cls && r[|cls|] == ' ' && r[|cls| + 1..] == name
  {
    cls + (if cls != "" then " " else "") + name
  }

  /** `name` occurs at `q` delimited by whitespace or the ends of the string. */
  predicate TokenAt(cls: string, name: string, q: nat)
  {
    && q + |name| <= |cls|
    && cls[q..q + |name|] == name
    && (q == 0 || IsWhitespace(cls[q - 1]))
    && (q + |name| == |cls| || IsWhitespace(cls[q + |name|]))
  }

  predicate HasClass(cls: string, name: string)
  {
    exists q: nat :: q <= |cls| && TokenAt(cls, name, q)
  }

  /** The leftmost whole-token occurrence of `name` at or after `from`. */
  function FindToken(cls: string, name: string, from: nat): (r: Option<nat>)
    ensures r.Some? ==> from <= r.value && TokenAt(cls, name, r.value)
    ensures forall q: nat :: from <= q && (r.None? || q < r.value) ==> !TokenAt(cls, name, q)
    decreases |cls| - from
  {
    if from + |name| > |cls| then None
    else if TokenAt(cls, name, from) then Some(from)
    else FindToken(cls, name, from + 1)
  }

  /** Start of the run of whitespace that ends at `q`. */
  function RunStart(cls: string, q: nat): (p: nat)
    requires q <= |cls|
    ensures p <= q && forall i :: p <= i < q ==> IsWhitespace(cls[i])
    ensures p == 0 || !IsWhitespace(cls[p - 1])
  {
    if q > 0 && IsWhitespace(cls[q - 1]) then RunStart(cls, q - 1) else q
  }

  /** End of the run of whitespace that starts at `q`. */
  function RunEnd(cls: string, q: nat): (p: nat)
    requires q <= |cls|
    ensures q <= p <= |cls| && forall i :: q <= i < p ==> IsWhitespace(cls[i])
    ensures p == |cls| || !IsWhitespace(cls[p])
    decreases |cls| - q
  {
    if q < |cls| && IsWhitespace(cls[q]) then RunEnd(cls, q + 1) else q
  }

  /**
   * `removeClass`: the leftmost whole-token occurrence of `name` is cut out
   * together with the whitespace runs on both sides of it; without an
   * occurrence the string is unchanged.
   */
  function WithoutClass(cls: string, name: string): (r: string)
    requires IsClassName(name)
    ensures !HasClass(cls, name) ==> r == cls
    ensures HasClass(cls, name) ==>
              exists q: nat :: TokenAt(cls, name, q)
                && (forall q': nat :: q' < q ==> !TokenAt(cls, name, q'))
                && r == cls[..RunStart(cls, q)] + cls[RunEnd(cls, q + |name|)..]
  {
    match FindToken(cls, name, 0)
    case None => cls
    case Some(q) => cls[..RunStart(cls, q)] + cls[RunEnd(cls, q + |name|)..]
  }

  /** The appended name is always present as a whole token. */
  lemma AddedClassPresent(cls: string, name: string)
    requires IsClassName(name)
    ensures HasClass(WithClass(cls, name), name)
  {
    var r := WithClass(cls, name);
    var q := if cls == "" then 0 else |cls| + 1;
    assert r[q..q + |name|] == name;
    assert TokenAt(r, name, q);
  }

  /**
   * Removing a class that was just added restores the class string, when the
   * name was absent before and the string does not end in whitespace.
   */
  lemma RemoveAddedClass(cls: string, name: string)
    requires IsClassName(name) && !HasClass(cls, name)
    requires cls == "" || !IsWhitespace(cls[|cls| - 1])
    ensures WithoutClass(WithClass(cls, name), name) == cls
  {
    var r := WithClass(cls, name);
    var q := if cls == "" then 0 else |cls| + 1;
    assert r[q..q + |name|] == name;
    assert TokenAt(r, name, q);
    forall q': nat | q' < q
      ensures !TokenAt(r, name, q')
    {
      EarlierTokenInside(cls, name, q');
    }
    assert RunEnd(r, q + |name|) == |r|;
    if cls != "" {
      assert RunStart(r, q - 1) == |cls|;
      assert RunStart(r, q) == |cls|;
    }
    assert r[..RunStart(r, q)] == cls;
    var found := FindToken(r, name, 0);
    assert found == Some(q);
  }

  /** A token of `name` in the extended string before the appended one is a token of `cls`. */
  lemma EarlierTokenInside(cls: string, name: string, q': nat)
    requires IsClassName(name) && cls != "" && q' < |cls| + 1
    ensures TokenAt(WithClass(cls, name), name, q') ==> TokenAt(cls, name, q')
  {
    var r := WithClass(cls, name);
    if TokenAt(r, name, q') {
      assert q' + |name| <= |cls|;
      assert cls[q'..q' + |name|] == r[q'..q' + |name|];
    }
  }

  /** The whole token and its whitespace go; text glued to it on neither side stays. */
  lemma RemoveMiddleClass()
    ensures WithoutClass("a b c", "b") == "ac"
  {
    assert !TokenAt("a b c", "b", 0) && !TokenAt("a b c", "b", 1);
    assert TokenAt("a b c", "b", 2);
    assert RunStart("a b c", 2) == 1;
    assert RunEnd("a b c", 3) == 4;
  }
}
