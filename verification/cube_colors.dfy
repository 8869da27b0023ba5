/**
 `CUBE_COLORS`: the object bound by `export const`, from the six face names of the cube to
 hex colour strings. The colour strings are opaque literals here.
 */
module CubeColors {
  import opened Wrappers

  /** The closed set of cube faces. */
  datatype Face = Front | Back | Top | Bottom | Right | Left

  /** The faces in the order the object literal declares them. */
  const Faces: seq<Face> := [Front, Back, Top, Bottom, Right, Left]

  /** The property name under which the table stores a face. */
  function Key(f: Face): string {
    match f
    case Front => "front"
    case Back => "back"
    case Top => "top"
    case Bottom => "bottom"
    case Right => "right"
    case Left => "left"
  }

  /** The face a property name denotes, if any. */
  function FaceOfKey(k: string): (r: Option<Face>)
    ensures r.Some? ==> Key(r.value) == k
    ensures r.None? ==> forall f :: Key(f) != k
  {
    if k == "front" then Some(Front)
    else if k == "back" then Some(Back)
    else if k == "top" then Some(Top)
    else if k == "bottom" then Some(Bottom)
    else if k == "right" then Some(Right)
    else if k == "left" then Some(Left)
    else None
  }

  /** A name denotes a face exactly when it is one of the six literals. */
  lemma NamedFace(k: string)
    ensures FaceOfKey(k).Some? <==>
      k in {"front", "back", "top", "bottom", "right", "left"}
  {
  }

  predicate IsHexDigit(ch: char) {
    '0' <= ch <= '9' || 'a' <= ch <= 'f'
  }

  /** `#rrggbb` with lower-case hex digits, the shape of every literal. */
  predicate IsHexColor(s: string) {
    |s| == 7 && s[0] == '#' && forall i :: 1 <= i < 7 ==> IsHexDigit(s[i])
  }

  /** The object literal, property name to colour string. */
  function Table(): (m: map<string, string>)
    ensures forall k :: k in m <==> FaceOfKey(k).Some?
    ensures forall k :: k in m ==> IsHexColor(m[k])
  {
    var m := map[
      "front" := "#ff0000",
      "back" := "#ff8c00",
      "top" := "#ffffff",
      "bottom" := "#ffff00",
      "right" := "#00ff00",
      "left" := "#0000ff"
    ];
    assert m.Keys == {"front", "back", "top", "bottom", "right", "left"};
    assert forall k :: k in m <==> FaceOfKey(k).Some? by {
      forall k
        ensures k in m <==> FaceOfKey(k).Some?
      {
        NamedFace(k);
      }
    }
    assert forall k :: k in m ==> IsHexColor(m[k]) by {
      assert IsHexColor("#ff0000") && IsHexColor("#ff8c00") && IsHexColor("#ffffff");
      assert IsHexColor("#ffff00") && IsHexColor("#00ff00") && IsHexColor("#0000ff");
    }
    m
  }

  /** The table has one entry per face, no more. */
  lemma TableSize()
    ensures |Table()| == |Faces|
  {
    assert Table().Keys == {"front", "back", "top", "bottom", "right", "left"};
  }

  /** The colour of a face; total because the face set is closed. */
  function ColorOf(f: Face): (c: string)
    ensures IsHexColor(c)
  {
    Table()[Key(f)]
  }

  /** A property read `CUBE_COLORS[k]`: the face's colour when `k` names a
      face, `undefined` (None) otherwise. */
  function Lookup(k: string): (r: Option<string>)
    ensures r.Some? <==> exists f :: Key(f) == k
    ensures forall f :: Key(f) == k ==> r == Some(ColorOf(f))
  {
    if k in Table() then Some(Table()[k]) else None
  }

  /** Every face is declared once, and the declaration order is the one of
      the literal. */
  lemma FacesListed()
    ensures forall f :: f in Faces
    ensures forall i, j :: 0 <= i < j < |Faces| ==> Faces[i] != Faces[j]
    ensures forall i :: 0 <= i < |Faces| ==> FaceOfKey(Key(Faces[i])) == Some(Faces[i])
    ensures Table().Keys == set f | f in Faces :: Key(f)
  {
    forall f
      ensures f in Faces
    {
      match f
      case Front => assert Faces[0] == f;
      case Back => assert Faces[1] == f;
      case Top => assert Faces[2] == f;
      case Bottom => assert Faces[3] == f;
      case Right => assert Faces[4] == f;
      case Left => assert Faces[5] == f;
    }
  }

  /** Distinct faces are stored under distinct names. */
  lemma KeyInjective(f: Face, g: Face)
    ensures Key(f) == Key(g) ==> f == g
  {
  }

  /** Each face has its own colour. */
  lemma ColorsDistinct(f: Face, g: Face)
    ensures ColorOf(f) == ColorOf(g) ==> f == g
  {
  }

  /** The literal values. */
  lemma ColorLiterals()
    ensures ColorOf(Front) == "#ff0000"
    ensures ColorOf(Back) == "#ff8c00"
    ensures ColorOf(Top) == "#ffffff"
    ensures ColorOf(Bottom) == "#ffff00"
    ensures ColorOf(Right) == "#00ff00"
    ensures ColorOf(Left) == "#0000ff"
  {
  }

  /** Reading a name that is not a face yields `undefined`. */
  lemma LookupOutsideFaces(k: string)
    requires FaceOfKey(k).None?
    ensures Lookup(k) == None
  {
  }
}
