/**
 * Reading an element's current transform back from its computed style
 * (getMatrixArray) and composing it with the element's layout offset
 * (getTopLeftMatrix, getMatrix).
 */
module Transforms {
  import opened Wrappers
  import opened Strings
  import opened Numbers
  import opened AffineMatrix

  /** A computed style, as `getPropertyValue` sees it: a property absent from the map reads as "". */
  type Style = map<string, string>

  function PropertyValue(st: Style, name: string): string
  {
    if name in st then st[name] else ""
  }

  /** The property names tried, in this order; the first non-empty value wins. */
  const TransformProperties: seq<string> :=
    ["-webkit-transform", "-moz-transform", "-ms-transform", "-o-transform", "transform"]

  /** The value read when every candidate is empty. */
  const Fallback: string := "FAIL"

  /** `v1 || v2 || ... || fallback` over the values of `names`. */
  function FirstNonEmpty(st: Style, names: seq<string>, fallback: string): (v: string)
    ensures fallback != "" ==> v != ""
    ensures (forall i :: 0 <= i < |names| ==> PropertyValue(st, names[i]) == "") ==> v == fallback
    ensures forall i :: 0 <= i < |names| && PropertyValue(st, names[i]) != ""
              && (forall j :: 0 <= j < i ==> PropertyValue(st, names[j]) == "")
              ==> v == PropertyValue(st, names[i])
  {
    if names == [] then fallback
    else if PropertyValue(st, names[0]) != "" then PropertyValue(st, names[0])
    else
      var v := FirstNonEmpty(st, names[1..], fallback);
      assert forall i :: 1 <= i < |names| ==> names[i] == names[1..][i - 1];
      v
  }

  /** The transform text getMatrixArray works on. */
  function ResolvedTransform(st: Style): (v: string)
    ensures v != ""
    ensures PropertyValue(st, "-webkit-transform") != "" ==> v == PropertyValue(st, "-webkit-transform")
    ensures (forall i :: 0 <= i < |TransformProperties| ==> PropertyValue(st, TransformProperties[i]) == "") ==> v == Fallback
  {
    FirstNonEmpty(st, TransformProperties, Fallback)
  }

  /** Where the source would throw a TypeError or compute NaN, the model fails with a reason. */
  datatype TransformError =
    | NoArgumentList          // no "(" in the text: `split('(')[1]` is undefined
    | TooFewArguments(count: nat)  // fewer than six comma-separated fields
    | NotANumber(index: nat)  // parseFloat gives NaN for this field

  const IdentityArray: seq<real> := [1.0, 0.0, 0.0, 1.0, 0.0, 0.0]

  /** Readings collected in order; the first one that is not a number fails, reported at its position from `base`. */
  function Collect(values: seq<Option<real>>, base: nat): (r: Result<seq<real>, TransformError>)
    ensures r.Ok? <==> forall i :: 0 <= i < |values| ==> values[i].Some?
    ensures r.Ok? ==> |r.value| == |values| && forall i :: 0 <= i < |values| ==> values[i] == Some(r.value[i])
    ensures r.Err? ==> r.error.NotANumber? && base <= r.error.index < base + |values|
                       && values[r.error.index - base].None?
                       && forall i :: 0 <= i < r.error.index - base ==> values[i].Some?
  {
    if values == [] then Ok([])
    else
      match values[0]
      case None => Err(NotANumber(base))
      case Some(x) =>
        var rest := Collect(values[1..], base + 1);
        if rest.Err? then Err(rest.error) else Ok([x] + rest.value)
  }

  /** parseFloat of each whitespace-stripped field, in order. */
  function Readings(fields: seq<string>): (v: seq<Option<real>>)
    ensures |v| == |fields|
    ensures forall i :: 0 <= i < |fields| ==> v[i] == ParseFloat(StripWhitespace(fields[i]))
  {
    seq(|fields|, i requires 0 <= i < |fields| => ParseFloat(StripWhitespace(fields[i])))
  }

  /** The readings of the fields; the first field that is not a number fails. */
  function ParseFields(fields: seq<string>): (r: Result<seq<real>, TransformError>)
    ensures r.Ok? <==> forall i :: 0 <= i < |fields| ==> ParseFloat(StripWhitespace(fields[i])).Some?
    ensures r.Ok? ==> |r.value| == |fields|
                      && forall i :: 0 <= i < |fields| ==> ParseFloat(StripWhitespace(fields[i])) == Some(r.value[i])
    ensures r.Err? ==> r.error.NotANumber? && r.error.index < |fields|
                       && ParseFloat(StripWhitespace(fields[r.error.index])).None?
                       && forall i :: 0 <= i < r.error.index ==> ParseFloat(StripWhitespace(fields[i])).Some?
  {
    Collect(Readings(fields), 0)
  }

  /** `tr.split('(')[1].split(')')[0].split(',')`: the fields between the first "(" and the next ")". */
  function ArgumentFields(tr: string): (r: Option<seq<string>>)
    ensures r.None? <==> '(' !in tr
    ensures r.Some? ==> |r.value| >= 1 && forall i :: 0 <= i < |r.value| ==> ',' !in r.value[i]
  {
    SplitCount(tr, '(');
    var pieces := Split(tr, '(');
    if |pieces| < 2 then None
    else Some(Split(Split(pieces[1], ')')[0], ','))
  }

  /**
   * getMatrixArray on a computed style: "none" is the identity; otherwise the
   * first six fields of the argument list, each stripped of whitespace and read
   * with parseFloat; further fields are ignored.
   */
  function GetMatrixArray(st: Style): (r: Result<seq<real>, TransformError>)
    ensures ResolvedTransform(st) == "none" ==> r == Ok(IdentityArray)
    ensures r.Ok? ==> |r.value| == 6
    ensures ResolvedTransform(st) != "none" && '(' !in ResolvedTransform(st) ==> r == Err(NoArgumentList)
    ensures ResolvedTransform(st) != "none" && ArgumentFields(ResolvedTransform(st)).Some? ==>
              var fields := ArgumentFields(ResolvedTransform(st)).value;
              (|fields| < 6 ==> r == Err(TooFewArguments(|fields|)))
              && (|fields| >= 6 ==> r == ParseFields(fields[..6]))
              && (r.Ok? ==> forall i :: 0 <= i < 6 ==> ParseFloat(StripWhitespace(fields[i])) == Some(r.value[i]))
  {
    var tr := ResolvedTransform(st);
    if tr == "none" then Ok(IdentityArray)
    else
      match ArgumentFields(tr)
      case None => Err(NoArgumentList)
      case Some(fields) =>
        if |fields| < 6 then Err(TooFewArguments(|fields|))
        else ParseFields(fields[..6])
  }

  /** getTopLeftMatrix: the translation to the element's layout offset (offsetLeft, offsetTop). */
  function GetTopLeftMatrix(offsetLeft: int, offsetTop: int): (m: Mat)
    ensures forall p :: Apply(m, p) == Point(p.x + offsetLeft as real, p.y + offsetTop as real)
  {
    Ttrans(offsetLeft as real, offsetTop as real)
  }

  /**
   * getMatrix: the offset translation is the outer operand of the product, so the
   * element's own transform is applied first and the result is then moved to the
   * layout offset.
   */
  function GetMatrix(st: Style, offsetLeft: int, offsetTop: int): (r: Result<Mat, TransformError>)
    ensures r.Ok? <==> GetMatrixArray(st).Ok?
    ensures r.Err? ==> r.error == GetMatrixArray(st).error
    ensures r.Ok? ==> r.value == Prod(GetTopLeftMatrix(offsetLeft, offsetTop), FromArray(GetMatrixArray(st).value))
  {
    match GetMatrixArray(st)
    case Err(e) => Err(e)
    case Ok(coefficients) => Ok(Prod(GetTopLeftMatrix(offsetLeft, offsetTop), FromArray(coefficients)))
  }

  /** Each computed coefficient as written in the argument list: ", " between fields. */
  function MatrixFields(fs: seq<Fixed>): (fields: seq<string>)
    requires |fs| == 6
    ensures |fields| == 6
  {
    seq(6, i requires 0 <= i < 6 => (if i == 0 then "" else " ") + FormatFixed(fs[i]))
  }

  /** The `matrix(a, b, c, d, e, f)` text a browser gives as the computed value of a 2D transform. */
  function Serialize(fs: seq<Fixed>): string
    requires |fs| == 6
  {
    "matrix(" + Join(MatrixFields(fs), ',') + ")"
  }

  /** Every character of a joined text comes from a piece or is the separator. */
  lemma {:induction false} JoinedCharacters(parts: seq<string>, sep: char, c: char)
    requires |parts| >= 1
    requires c != sep && forall i :: 0 <= i < |parts| ==> c !in parts[i]
    ensures c !in Join(parts, sep)
  {
    if |parts| > 1 {
      JoinedCharacters(parts[1..], sep, c);
    }
  }

  /** A field of the serialized matrix strips to the numeral of its coefficient. */
  lemma StrippedField(fs: seq<Fixed>, i: nat)
    requires |fs| == 6 && i < 6
    ensures StripWhitespace(MatrixFields(fs)[i]) == FormatFixed(fs[i])
  {
    var num := FormatFixed(fs[i]);
    FormatFixedCharacters(fs[i]);
    StripWhitespaceKeeps(num);
    if i > 0 {
      var field := " " + num;
      assert MatrixFields(fs)[i] == field;
      assert field[0] == ' ' && field[1..] == num;
      assert StripWhitespace(field) == StripWhitespace(num);
    } else {
      assert MatrixFields(fs)[i] == num;
    }
  }

  /** A character that is no digit, sign, point or space occurs in no written field. */
  lemma FieldsAvoid(fs: seq<Fixed>, c: char)
    requires |fs| == 6
    requires !IsDigit(c) && c != '-' && c != '.' && c != ' '
    ensures forall i :: 0 <= i < 6 ==> c !in MatrixFields(fs)[i]
  {
    forall i | 0 <= i < 6
      ensures c !in MatrixFields(fs)[i]
    {
      var num := FormatFixed(fs[i]);
      FormatFixedCharacters(fs[i]);
      assert forall j :: 0 <= j < |num| ==> num[j] != c;
      assert MatrixFields(fs)[i] == (if i == 0 then "" else " ") + num;
    }
  }

  /** The argument fields of `matrix(body)`, for a body without parentheses, are the comma-separated pieces of the body. */
  lemma ArgumentsOfMatrix(body: string)
    requires '(' !in body && ')' !in body
    ensures ArgumentFields("matrix(" + body + ")") == Some(Split(body, ','))
  {
    var tr := "matrix(" + body + ")";
    assert tr == "matrix" + ['('] + (body + ")");
    SplitAfterPiece("matrix", body + ")", '(');
    assert '(' !in body + ")";
    SplitWithoutSeparator(body + ")", '(');
    assert Split(tr, '(')[1] == body + ")";
    assert body + ")" == body + [')'] + "";
    SplitAfterPiece(body, "", ')');
  }

  /** The argument fields of a serialized matrix are the six written fields. */
  lemma SerializedFields(fs: seq<Fixed>)
    requires |fs| == 6
    ensures Serialize(fs) != "none"
    ensures ArgumentFields(Serialize(fs)) == Some(MatrixFields(fs))
  {
    var fields := MatrixFields(fs);
    var body := Join(fields, ',');
    assert Serialize(fs)[0] == 'm';
    FieldsAvoid(fs, '(');
    JoinedCharacters(fields, ',', '(');
    FieldsAvoid(fs, ')');
    JoinedCharacters(fields, ',', ')');
    FieldsAvoid(fs, ',');
    ArgumentsOfMatrix(body);
    SplitJoin(fields, ',');
  }

  /** The six written fields read back as the coefficients' values. */
  lemma ParseSerializedFields(fs: seq<Fixed>)
    requires |fs| == 6
    ensures ParseFields(MatrixFields(fs)) == Ok(seq(6, i requires 0 <= i < 6 => FixedValue(fs[i])))
  {
    var fields := MatrixFields(fs);
    var values := seq(6, i requires 0 <= i < 6 => FixedValue(fs[i]));
    forall i | 0 <= i < 6
      ensures ParseFloat(StripWhitespace(fields[i])) == Some(values[i])
    {
      StrippedField(fs, i);
      ParseFormatFixed(fs[i]);
    }
    var r := ParseFields(fields);
    assert r.Ok?;
    assert |r.value| == 6;
    assert forall i :: 0 <= i < 6 ==> Some(r.value[i]) == Some(values[i]);
    assert r.value == values;
  }

  /** Reading a style whose transform is a serialized matrix gives back its six coefficients, in order. */
  lemma ReadSerializedMatrix(st: Style, fs: seq<Fixed>)
    requires |fs| == 6
    requires ResolvedTransform(st) == Serialize(fs)
    ensures GetMatrixArray(st) == Ok(seq(6, i requires 0 <= i < 6 => FixedValue(fs[i])))
  {
    var fields := MatrixFields(fs);
    SerializedFields(fs);
    assert fields[..6] == fields;
    assert GetMatrixArray(st) == ParseFields(fields);
    ParseSerializedFields(fs);
  }

  /**
   * An element with no transform of its own ("none") is placed by its layout
   * offset alone.
   */
  lemma UntransformedIsOffset(st: Style, offsetLeft: int, offsetTop: int)
    requires ResolvedTransform(st) == "none"
    ensures GetMatrix(st, offsetLeft, offsetTop) == Ok(Ttrans(offsetLeft as real, offsetTop as real))
  {
    ProdIdentity(Ttrans(offsetLeft as real, offsetTop as real));
  }

  /** The composed matrix moves a point by the element's own transform `t` first and by the layout offset after. */
  lemma OffsetAppliedLast(t: seq<real>, offsetLeft: int, offsetTop: int, p: Point)
    requires |t| == 6
    ensures var inner := Apply(FromArray(t), p);
            Apply(Prod(GetTopLeftMatrix(offsetLeft, offsetTop), FromArray(t)), p)
            == Point(inner.x + offsetLeft as real, inner.y + offsetTop as real)
  {
    var inner := Apply(FromArray(t), p);
    assert Apply(GetTopLeftMatrix(offsetLeft, offsetTop), inner) == Point(inner.x + offsetLeft as real, inner.y + offsetTop as real);
  }

  /**
   * The same on getMatrix itself: a point goes through the element's transform
   * first and is then moved by the layout offset.
   */
  lemma GetMatrixAppliesOffsetLast(st: Style, offsetLeft: int, offsetTop: int, p: Point)
    ensures GetMatrix(st, offsetLeft, offsetTop).Ok? ==>
              var inner := Apply(FromArray(GetMatrixArray(st).value), p);
              Apply(GetMatrix(st, offsetLeft, offsetTop).value, p)
              == Point(inner.x + offsetLeft as real, inner.y + offsetTop as real)
  {
    if GetMatrixArray(st).Ok? {
      OffsetAppliedLast(GetMatrixArray(st).value, offsetLeft, offsetTop, p);
    }
  }

  /**
   * The origin of the element's own coordinate system lands at the layout offset
   * plus the transform's own translation (t[4], t[5]), whatever its scale or rotation.
   */
  lemma OriginPlacement(t: seq<real>, offsetLeft: int, offsetTop: int)
    requires |t| == 6
    ensures Apply(Prod(GetTopLeftMatrix(offsetLeft, offsetTop), FromArray(t)), Point(0.0, 0.0))
            == Point(offsetLeft as real + t[4], offsetTop as real + t[5])
  {
    var origin := Point(0.0, 0.0);
    var moved := Apply(FromArray(t), origin);
    assert moved == Point(t[4], t[5]);
    var shifted := Apply(GetTopLeftMatrix(offsetLeft, offsetTop), moved);
    assert shifted == Point(moved.x + offsetLeft as real, moved.y + offsetTop as real);
  }

  /**
   * A child with layout offset (5, 5) whose computed transform reads as
   * (1, 0, 0, 1, 100, 0), a translation by 100 along x, is translated by
   * (105, 5) in all.
   */
  lemma TranslatedChild(st: Style)
    requires GetMatrixArray(st) == Ok([1.0, 0.0, 0.0, 1.0, 100.0, 0.0])
    ensures GetMatrix(st, 5, 5) == Ok(Mat(1.0, 0.0, 0.0, 1.0, 105.0, 5.0))
  {
    var local := FromArray([1.0, 0.0, 0.0, 1.0, 100.0, 0.0]);
    assert local == Mat(1.0, 0.0, 0.0, 1.0, 100.0, 0.0);
    var offset := GetTopLeftMatrix(5, 5);
    assert offset == Mat(1.0, 0.0, 0.0, 1.0, 5.0, 5.0);
    assert GetMatrix(st, 5, 5) == Ok(Prod(offset, local));
    assert Prod(offset, local) == Mat(1.0, 0.0, 0.0, 1.0, 105.0, 5.0);
  }

  /**
   * The operand order is significant: for a 2x scale at layout offset (50, 30)
   * the composed map keeps the origin at (50, 30); with the operands swapped it
   * would land at (100, 60).
   */
  lemma OffsetIsOuterOperand(st: Style)
    requires GetMatrixArray(st) == Ok([2.0, 0.0, 0.0, 2.0, 0.0, 0.0])
    ensures GetMatrix(st, 50, 30) == Ok(Mat(2.0, 0.0, 0.0, 2.0, 50.0, 30.0))
    ensures Prod(FromArray(GetMatrixArray(st).value), GetTopLeftMatrix(50, 30)) == Mat(2.0, 0.0, 0.0, 2.0, 100.0, 60.0)
  {
    var local := FromArray([2.0, 0.0, 0.0, 2.0, 0.0, 0.0]);
    assert local == Mat(2.0, 0.0, 0.0, 2.0, 0.0, 0.0);
    var offset := GetTopLeftMatrix(50, 30);
    assert offset == Mat(1.0, 0.0, 0.0, 1.0, 50.0, 30.0);
    assert GetMatrix(st, 50, 30) == Ok(Prod(offset, local));
    assert Prod(offset, local) == Mat(2.0, 0.0, 0.0, 2.0, 50.0, 30.0);
    assert Prod(local, offset) == Mat(2.0, 0.0, 0.0, 2.0, 100.0, 60.0);
  }
}
