/** Undoing the EXIF orientation of an image: seven pixel loops, and the group of symmetries they
    compute. A pixel stands for a colour already converted to the target's colour model. */
module Orientation {

  datatype Pixel = Pixel(r: nat, g: nat, b: nat, a: nat)

  /** An image with any origin. */
  datatype Image = Image(minX: int, minY: int, maxX: int, maxY: int, at: (int, int) -> Pixel)
  {
    predicate Valid() { minX <= maxX && minY <= maxY }

    function Dx(): int { maxX - minX }

    function Dy(): int { maxY - minY }

    /** The picture that it shows, with its origin at (0, 0). */
    function Shown(): Picture
      requires Valid()
    {
      Picture(Dx(), Dy(), (x, y) => at(minX + x, minY + y))
    }
  }

  /** A picture: `at` counts only inside the picture. */
  datatype Picture = Picture(w: nat, h: nat, at: (int, int) -> Pixel)

  ghost predicate Same(p: Picture, q: Picture) {
    && p.w == q.w && p.h == q.h
    && forall x, y :: 0 <= x < p.w && 0 <= y < p.h ==> p.at(x, y) == q.at(x, y)
  }

  // ---------------------------------------------------------------- symmetries

  /** Read the source with its axes exchanged, then mirrored. */
  datatype Symmetry = Symmetry(swap: bool, flipX: bool, flipY: bool)

  const IDENTITY := Symmetry(false, false, false)
  const FLIP_H := Symmetry(false, true, false)
  const FLIP_V := Symmetry(false, false, true)
  const ROTATE_180 := Symmetry(false, true, true)
  const TRANSPOSE := Symmetry(true, false, false)
  const ROTATE_90 := Symmetry(true, true, false)
  const ROTATE_270 := Symmetry(true, false, true)
  const TRANSVERSE := Symmetry(true, true, true)

  function Mirror(flip: bool, n: int, i: int): int {
    if flip then n - 1 - i else i
  }

  function Transformed(s: Symmetry, p: Picture): Picture {
    Picture(if s.swap then p.h else p.w, if s.swap then p.w else p.h,
            (x, y) => p.at(Mirror(s.flipX, p.w, if s.swap then y else x),
                           Mirror(s.flipY, p.h, if s.swap then x else y)))
  }

  /** Where the colour of a pixel of the transformed picture is read. */
  lemma ReadFrom(s: Symmetry, p: Picture, x: int, y: int)
    ensures Transformed(s, p).at(x, y)
            == p.at(Mirror(s.flipX, p.w, if s.swap then y else x), Mirror(s.flipY, p.h, if s.swap then x else y))
  {
  }

  /** First s, then t. */
  function Then(s: Symmetry, t: Symmetry): Symmetry {
    Symmetry(s.swap != t.swap,
             s.flipX != (if s.swap then t.flipY else t.flipX),
             s.flipY != (if s.swap then t.flipX else t.flipY))
  }

  function Inverse(s: Symmetry): Symmetry {
    if s.swap then Symmetry(true, s.flipY, s.flipX) else s
  }

  /** Doing one transform after another is doing their composition. */
  lemma ThenIsComposition(s: Symmetry, t: Symmetry, p: Picture)
    ensures Same(Transformed(t, Transformed(s, p)), Transformed(Then(s, t), p))
  {
    var q := Transformed(s, p);
    forall x, y ensures Transformed(t, q).at(x, y) == Transformed(Then(s, t), p).at(x, y) {
      var i, j := Mirror(t.flipX, q.w, if t.swap then y else x), Mirror(t.flipY, q.h, if t.swap then x else y);
      ReadFrom(t, q, x, y);
      ReadFrom(s, p, i, j);
      ReadFrom(Then(s, t), p, x, y);
    }
  }

  lemma IdentityChangesNothing(p: Picture)
    ensures Same(Transformed(IDENTITY, p), p)
  {
    forall x, y ensures Transformed(IDENTITY, p).at(x, y) == p.at(x, y) {
      ReadFrom(IDENTITY, p, x, y);
    }
  }

  lemma SameTransformed(s: Symmetry, p: Picture, q: Picture)
    requires Same(p, q)
    ensures Same(Transformed(s, p), Transformed(s, q))
  {
    var t, u := Transformed(s, p), Transformed(s, q);
    forall x, y | 0 <= x < t.w && 0 <= y < t.h ensures t.at(x, y) == u.at(x, y) {
      ReadFrom(s, p, x, y);
      ReadFrom(s, q, x, y);
    }
  }

  /** The eight transforms form a group, and act as one. */
  lemma SymmetriesFormGroup(s: Symmetry, t: Symmetry, u: Symmetry)
    ensures Then(Then(s, t), u) == Then(s, Then(t, u))
    ensures Then(IDENTITY, s) == s == Then(s, IDENTITY)
    ensures Then(s, Inverse(s)) == IDENTITY == Then(Inverse(s), s)
    ensures s in {IDENTITY, FLIP_H, FLIP_V, ROTATE_180, TRANSPOSE, ROTATE_90, ROTATE_270, TRANSVERSE}
  {
  }

  /** It is the dihedral group of the square: a quarter turn of order four, and mirrorings that turn it
      round. */
  lemma DihedralRelations()
    ensures Then(ROTATE_90, ROTATE_90) == ROTATE_180 && Then(ROTATE_180, ROTATE_180) == IDENTITY
    ensures Then(ROTATE_90, ROTATE_270) == IDENTITY == Then(ROTATE_270, ROTATE_90)
    ensures forall m :: m in {FLIP_H, FLIP_V, TRANSPOSE, TRANSVERSE} ==>
                          Then(m, m) == IDENTITY && Then(Then(m, ROTATE_90), m) == ROTATE_270
    ensures ROTATE_90 == Then(TRANSPOSE, FLIP_V) && TRANSVERSE == Then(TRANSPOSE, ROTATE_180)
  {
  }

  // ---------------------------------------------------------------- the pixel loops

  ghost predicate Shows(dst: array2<Pixel>, p: Picture)
    reads dst
  {
    && dst.Length0 == p.w && dst.Length1 == p.h
    && forall u, v :: 0 <= u < p.w && 0 <= v < p.h ==> dst[u, v] == p.at(u, v)
  }

  const BLANK := Pixel(0, 0, 0, 0)

  method NewTarget(w: nat, h: nat) returns (dst: array2<Pixel>)
    ensures fresh(dst) && dst.Length0 == w && dst.Length1 == h
    ensures forall u, v :: 0 <= u < w && 0 <= v < h ==> dst[u, v] == BLANK
  {
    dst := new Pixel[w, h]((u, v) => BLANK);
  }

  /** The column and row of the source, counted from its origin, that a target pixel is read from. */
  function Column(s: Symmetry, src: Image, u: int, v: int): int {
    Mirror(s.flipX, src.Dx(), if s.swap then v else u)
  }

  function Row(s: Symmetry, src: Image, u: int, v: int): int {
    Mirror(s.flipY, src.Dy(), if s.swap then u else v)
  }

  /** What a target pixel holds with the loops at (x, y). */
  function PixelAt(s: Symmetry, src: Image, x: int, y: int, u: int, v: int): Pixel {
    var i, j := src.minX + Column(s, src, u, v), src.minY + Row(s, src, u, v);
    if j < y || (j == y && i < x) then src.at(i, j) else BLANK
  }

  /** With the loops at (x, y), the target pixels of the source pixels before it are written, each with the
      colour of its own source pixel, and no other is. */
  ghost predicate WrittenUpTo(dst: array2<Pixel>, s: Symmetry, src: Image, x: int, y: int)
    reads dst
  {
    && dst.Length0 == (if s.swap then src.Dy() else src.Dx())
    && dst.Length1 == (if s.swap then src.Dx() else src.Dy())
    && forall u, v :: 0 <= u < dst.Length0 && 0 <= v < dst.Length1 ==> dst[u, v] == PixelAt(s, src, x, y, u, v)
  }

  /** dst.Set(u, v, src.At(x, y)), for the pixel whose source is next. */
  method Set(dst: array2<Pixel>, u: int, v: int, src: Image, x: int, y: int, ghost s: Symmetry)
    requires src.minX <= x < src.maxX && src.minY <= y < src.maxY
    requires WrittenUpTo(dst, s, src, x, y)
    requires Column(s, src, u, v) == x - src.minX && Row(s, src, u, v) == y - src.minY
    modifies dst
    ensures WrittenUpTo(dst, s, src, x + 1, y)
  {
    NextPixel(s, src, x, x + 1, y, u, v);
    hide Column, Row, PixelAt;
    dst[u, v] := src.at(x, y);
  }

  lemma NextPixel(s: Symmetry, src: Image, x: int, next: int, y: int, u: int, v: int)
    requires next == x + 1 && src.minX <= x < src.maxX && src.minY <= y < src.maxY
    requires Column(s, src, u, v) == x - src.minX && Row(s, src, u, v) == y - src.minY
    ensures 0 <= u < if s.swap then src.Dy() else src.Dx()
    ensures 0 <= v < if s.swap then src.Dx() else src.Dy()
    ensures forall u', v' :: PixelAt(s, src, next, y, u', v')
                             == if u' == u && v' == v then src.at(x, y) else PixelAt(s, src, x, y, u', v')
  {
    OneTarget(s, src, u, v, u, v);
    forall u', v' ensures PixelAt(s, src, next, y, u', v')
                          == if u' == u && v' == v then src.at(x, y) else PixelAt(s, src, x, y, u', v') {
      OneTarget(s, src, u, v, u', v');
    }
  }

  /** A source pixel has one target pixel, and it is inside the target. */
  lemma OneTarget(s: Symmetry, src: Image, u: int, v: int, u': int, v': int)
    requires 0 <= Column(s, src, u, v) < src.Dx() && 0 <= Row(s, src, u, v) < src.Dy()
    ensures 0 <= u < if s.swap then src.Dy() else src.Dx()
    ensures 0 <= v < if s.swap then src.Dx() else src.Dy()
    ensures Column(s, src, u', v') == Column(s, src, u, v) && Row(s, src, u', v') == Row(s, src, u, v)
            ==> u' == u && v' == v
  {
  }

  lemma NothingWritten(dst: array2<Pixel>, s: Symmetry, src: Image)
    requires src.Valid()
    requires dst.Length0 == if s.swap then src.Dy() else src.Dx()
    requires dst.Length1 == if s.swap then src.Dx() else src.Dy()
    requires forall u, v :: 0 <= u < dst.Length0 && 0 <= v < dst.Length1 ==> dst[u, v] == BLANK
    ensures WrittenUpTo(dst, s, src, src.minX, src.minY)
  {
  }

  lemma RowWritten(dst: array2<Pixel>, s: Symmetry, src: Image, y: int)
    requires WrittenUpTo(dst, s, src, src.maxX, y)
    ensures WrittenUpTo(dst, s, src, src.minX, y + 1)
  {
  }

  lemma AllWritten(dst: array2<Pixel>, s: Symmetry, src: Image)
    requires src.Valid() && WrittenUpTo(dst, s, src, src.minX, src.maxY)
    ensures Shows(dst, Transformed(s, src.Shown()))
  {
    forall u, v | 0 <= u < dst.Length0 && 0 <= v < dst.Length1
      ensures dst[u, v] == Transformed(s, src.Shown()).at(u, v)
    {
      ReadFrom(s, src.Shown(), u, v);
    }
  }

  method FlipH(src: Image) returns (dst: array2<Pixel>)
    requires src.Valid()
    ensures Shows(dst, Transformed(FLIP_H, src.Shown()))
  {
    hide WrittenUpTo, Shows;
    dst := NewTarget(src.Dx(), src.Dy());
    NothingWritten(dst, FLIP_H, src);
    for y := src.minY to src.maxY
      invariant WrittenUpTo(dst, FLIP_H, src, src.minX, y)
    {
      for x := src.minX to src.maxX
        invariant WrittenUpTo(dst, FLIP_H, src, x, y)
      {
        Set(dst, src.maxX - 1 - x, y - src.minY, src, x, y, FLIP_H);
      }
      RowWritten(dst, FLIP_H, src, y);
    }
    AllWritten(dst, FLIP_H, src);
  }

  method FlipV(src: Image) returns (dst: array2<Pixel>)
    requires src.Valid()
    ensures Shows(dst, Transformed(FLIP_V, src.Shown()))
  {
    hide WrittenUpTo, Shows;
    dst := NewTarget(src.Dx(), src.Dy());
    NothingWritten(dst, FLIP_V, src);
    for y := src.minY to src.maxY
      invariant WrittenUpTo(dst, FLIP_V, src, src.minX, y)
    {
      for x := src.minX to src.maxX
        invariant WrittenUpTo(dst, FLIP_V, src, x, y)
      {
        Set(dst, x - src.minX, src.maxY - 1 - y, src, x, y, FLIP_V);
      }
      RowWritten(dst, FLIP_V, src, y);
    }
    AllWritten(dst, FLIP_V, src);
  }

  method Rotate90(src: Image) returns (dst: array2<Pixel>)
    requires src.Valid()
    ensures Shows(dst, Transformed(ROTATE_90, src.Shown()))
  {
    hide WrittenUpTo, Shows;
    dst := NewTarget(src.Dy(), src.Dx());
    NothingWritten(dst, ROTATE_90, src);
    for y := src.minY to src.maxY
      invariant WrittenUpTo(dst, ROTATE_90, src, src.minX, y)
    {
      for x := src.minX to src.maxX
        invariant WrittenUpTo(dst, ROTATE_90, src, x, y)
      {
        Set(dst, y - src.minY, src.maxX - 1 - x, src, x, y, ROTATE_90);
      }
      RowWritten(dst, ROTATE_90, src, y);
    }
    AllWritten(dst, ROTATE_90, src);
  }

  method Rotate180(src: Image) returns (dst: array2<Pixel>)
    requires src.Valid()
    ensures Shows(dst, Transformed(ROTATE_180, src.Shown()))
  {
    hide WrittenUpTo, Shows;
    dst := NewTarget(src.Dx(), src.Dy());
    NothingWritten(dst, ROTATE_180, src);
    for y := src.minY to src.maxY
      invariant WrittenUpTo(dst, ROTATE_180, src, src.minX, y)
    {
      for x := src.minX to src.maxX
        invariant WrittenUpTo(dst, ROTATE_180, src, x, y)
      {
        Set(dst, src.maxX - 1 - x, src.maxY - 1 - y, src, x, y, ROTATE_180);
      }
      RowWritten(dst, ROTATE_180, src, y);
    }
    AllWritten(dst, ROTATE_180, src);
  }

  method Rotate270(src: Image) returns (dst: array2<Pixel>)
    requires src.Valid()
    ensures Shows(dst, Transformed(ROTATE_270, src.Shown()))
  {
    hide WrittenUpTo, Shows;
    dst := NewTarget(src.Dy(), src.Dx());
    NothingWritten(dst, ROTATE_270, src);
    for y := src.minY to src.maxY
      invariant WrittenUpTo(dst, ROTATE_270, src, src.minX, y)
    {
      for x := src.minX to src.maxX
        invariant WrittenUpTo(dst, ROTATE_270, src, x, y)
      {
        Set(dst, src.maxY - 1 - y, x - src.minX, src, x, y, ROTATE_270);
      }
      RowWritten(dst, ROTATE_270, src, y);
    }
    AllWritten(dst, ROTATE_270, src);
  }

  method Transpose(src: Image) returns (dst: array2<Pixel>)
    requires src.Valid()
    ensures Shows(dst, Transformed(TRANSPOSE, src.Shown()))
  {
    hide WrittenUpTo, Shows;
    dst := NewTarget(src.Dy(), src.Dx());
    NothingWritten(dst, TRANSPOSE, src);
    for y := src.minY to src.maxY
      invariant WrittenUpTo(dst, TRANSPOSE, src, src.minX, y)
    {
      for x := src.minX to src.maxX
        invariant WrittenUpTo(dst, TRANSPOSE, src, x, y)
      {
        Set(dst, y - src.minY, x - src.minX, src, x, y, TRANSPOSE);
      }
      RowWritten(dst, TRANSPOSE, src, y);
    }
    AllWritten(dst, TRANSPOSE, src);
  }

  method Transverse(src: Image) returns (dst: array2<Pixel>)
    requires src.Valid()
    ensures Shows(dst, Transformed(TRANSVERSE, src.Shown()))
  {
    hide WrittenUpTo, Shows;
    dst := NewTarget(src.Dy(), src.Dx());
    NothingWritten(dst, TRANSVERSE, src);
    for y := src.minY to src.maxY
      invariant WrittenUpTo(dst, TRANSVERSE, src, src.minX, y)
    {
      for x := src.minX to src.maxX
        invariant WrittenUpTo(dst, TRANSVERSE, src, x, y)
      {
        Set(dst, src.maxY - 1 - y, src.maxX - 1 - x, src, x, y, TRANSVERSE);
      }
      RowWritten(dst, TRANSVERSE, src, y);
    }
    AllWritten(dst, TRANSVERSE, src);
  }

  // ---------------------------------------------------------------- the orientation tag

  function SymmetryOf(tag: int): Symmetry {
    match tag
    case 2 => FLIP_H
    case 3 => ROTATE_180
    case 4 => FLIP_V
    case 5 => TRANSPOSE
    case 6 => ROTATE_270
    case 7 => TRANSVERSE
    case 8 => ROTATE_90
    case _ => IDENTITY
  }

  /** The sides of the scene that the first row and the first column of the stored image show (Orientation,
      section 8 of TIFF 6.0). */
  datatype Side = Top | Bottom | Left | Right

  function FirstRow(tag: int): Side
    requires 1 <= tag <= 8
  {
    [Top, Top, Bottom, Bottom, Left, Right, Right, Left][tag - 1]
  }

  function FirstColumn(tag: int): Side
    requires 1 <= tag <= 8
  {
    [Left, Right, Right, Left, Top, Top, Bottom, Bottom][tag - 1]
  }

  /** The position in the scene, counted from the left and from the top, of something n pixels away from a
      side. */
  function FromSide(side: Side, scene: Picture, n: int): int {
    match side
    case Top => n
    case Left => n
    case Bottom => scene.h - 1 - n
    case Right => scene.w - 1 - n
  }

  /** How a camera that writes the tag stores a scene. */
  function Stored(tag: int, scene: Picture): Picture
    requires 1 <= tag <= 8
  {
    var row, column := FirstRow(tag), FirstColumn(tag);
    if row.Top? || row.Bottom? then
      Picture(scene.w, scene.h, (c, r) => scene.at(FromSide(column, scene, c), FromSide(row, scene, r)))
    else
      Picture(scene.h, scene.w, (c, r) => scene.at(FromSide(row, scene, r), FromSide(column, scene, c)))
  }

  lemma StoredAt(tag: int, scene: Picture, c: int, r: int)
    requires 1 <= tag <= 8
    ensures var row, column := FirstRow(tag), FirstColumn(tag);
            Stored(tag, scene).at(c, r)
            == if row.Top? || row.Bottom? then scene.at(FromSide(column, scene, c), FromSide(row, scene, r))
               else scene.at(FromSide(row, scene, r), FromSide(column, scene, c))
  {
  }

  /** The transform chosen for a tag recovers the scene from what that tag's camera stores. */
  lemma FixUndoesStorage(tag: int, scene: Picture)
    requires 1 <= tag <= 8
    ensures Same(Transformed(SymmetryOf(tag), Stored(tag, scene)), scene)
  {
    var stored, s := Stored(tag, scene), SymmetryOf(tag);
    forall x, y | 0 <= x < scene.w && 0 <= y < scene.h ensures Transformed(s, stored).at(x, y) == scene.at(x, y) {
      ReadFrom(s, stored, x, y);
      StoredAt(tag, scene, Mirror(s.flipX, stored.w, if s.swap then y else x),
          Mirror(s.flipY, stored.h, if s.swap then x else y));
    }
  }

  /** The image that is shown for a target: the target, or, without one, the image as it is. */
  ghost predicate Displays(target: array2?<Pixel>, img: Image, p: Picture)
    requires img.Valid()
    reads target
  {
    if target == null then Same(img.Shown(), p) else Shows(target, p)
  }

  lemma SceneIsRecovered(tag: int, img: Image, scene: Picture)
    requires 1 <= tag <= 8 && img.Valid() && Same(img.Shown(), Stored(tag, scene))
    ensures Same(Transformed(SymmetryOf(tag), img.Shown()), scene)
    ensures tag == 1 ==> Same(img.Shown(), scene)
  {
    SameTransformed(SymmetryOf(tag), img.Shown(), Stored(tag, scene));
    FixUndoesStorage(tag, scene);
    IdentityChangesNothing(img.Shown());
  }

  /** Null when the image is passed on as it is. If the image is what a camera stored with the tag, what is
      displayed is the scene. */
  method FixOrientation(tag: int, img: Image) returns (target: array2?<Pixel>)
    requires img.Valid()
    ensures target == null <==> !(2 <= tag <= 8)
    ensures target != null ==> Shows(target, Transformed(SymmetryOf(tag), img.Shown()))
    ensures 1 <= tag <= 8 ==>
              forall scene: Picture :: Same(img.Shown(), Stored(tag, scene)) ==> Displays(target, img, scene)
  {
    target := Dispatch(tag, img);
    hide Transformed, SymmetryOf, Stored;
    if 1 <= tag <= 8 {
      forall scene: Picture | Same(img.Shown(), Stored(tag, scene)) ensures Displays(target, img, scene) {
        SceneIsRecovered(tag, img, scene);
      }
    }
  }

  method Dispatch(tag: int, img: Image) returns (target: array2?<Pixel>)
    requires img.Valid()
    ensures target == null <==> !(2 <= tag <= 8)
    ensures target != null ==> Shows(target, Transformed(SymmetryOf(tag), img.Shown()))
  {
    match tag
    case 2 => target := FlipH(img);
    case 3 => target := Rotate180(img);
    case 4 => target := FlipV(img);
    case 5 => target := Transpose(img);
    case 6 => target := Rotate270(img);
    case 7 => target := Transverse(img);
    case 8 => target := Rotate90(img);
    case _ => target := null;
  }
}
