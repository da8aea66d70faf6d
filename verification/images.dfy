/**
 The image handle the script passes to the codec, reduced to what the script
 itself observes: its pixel dimensions and the turn applied to its content.
 Decoding, resampling and encoding stay with the codec library.
 */
module Images {

  /** Pixel dimensions as the codec reports them in `img.size`. */
  datatype Size = Size(width: nat, height: nat)

  /** The size with its sides exchanged. */
  function Transposed(s: Size): Size
  {
    Size(s.height, s.width)
  }

  /** Number of pixels. */
  function Area(s: Size): nat
  {
    s.width * s.height
  }

  /**
   An image: its size, and the counter-clockwise turn in degrees that has been
   applied to its content since it was decoded. The turn stands in for the
   pixels, which this model does not hold.
   */
  datatype Image = Image(size: Size, turn: int)

  /** A turn kept in its normal range [0, 360). */
  predicate NormalTurn(t: int)
  {
    0 <= t < 360
  }

  /** The three quarter-multiple rotations the script asks the codec for. */
  datatype Turn = Turn90 | Turn180 | Turn270

  function Degrees(t: Turn): int
  {
    match t
    case Turn90 => 90
    case Turn180 => 180
    case Turn270 => 270
  }

  /**
   Counter-clockwise rotation with `expand=True` by a multiple of 90 degrees:
   the codec transposes the pixel grid, so a quarter turn exchanges the sides
   and a half turn keeps them.
   */
  function Rotate(img: Image, t: Turn): (r: Image)
    ensures Area(r.size) == Area(img.size)
    ensures t == Turn180 ==> r.size == img.size
    ensures t != Turn180 ==> r.size == Transposed(img.size)
    ensures NormalTurn(r.turn)
    ensures (r.turn - img.turn - Degrees(t)) % 360 == 0
  {
    var size := if t == Turn180 then img.size else Transposed(img.size);
    Image(size, (img.turn + Degrees(t)) % 360)
  }

  /** The turn that undoes `t`. */
  function Inverse(t: Turn): Turn
  {
    match t
    case Turn90 => Turn270
    case Turn180 => Turn180
    case Turn270 => Turn90
  }

  /** Rotating by a turn and then by its inverse gives back the image. */
  lemma RotateInverse(img: Image, t: Turn)
    requires NormalTurn(img.turn)
    ensures Rotate(Rotate(img, t), Inverse(t)) == img
  {
    var once := Rotate(img, t);
    assert Degrees(t) + Degrees(Inverse(t)) == 360;
    assert once.turn == (img.turn + Degrees(t)) % 360;
    assert (once.turn + Degrees(Inverse(t))) % 360 == img.turn;
  }
}
