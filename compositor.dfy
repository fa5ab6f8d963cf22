/**
  The compositor: every sampled frame is cropped to its centred square,
  resized when a size is given, and stacked below the frames before it into
  one tall sprite sheet.
 */
module Compositor {
  import opened Wrappers
  import opened PowerOfTwo
  import opened Frames
  import opened Sampler
  import opened Validation

  /** Python's `if resize_size:` on an optional size: present and not 0. */
  predicate IsTruthy(resizeSize: Option<nat>)
  {
    resizeSize.Some? && resizeSize.value != 0
  }

  /** One sprite-sheet tile: the cropped frame, resized when asked to. It
      is square, of the requested side when resized and of the frame's
      smaller dimension otherwise. */
  function Tile(f: Frame, resizeSize: Option<nat>, resize: Resizer): (t: Frame)
  {
    var square := CropRectangleAsSquare(f);
    if IsTruthy(resizeSize) then resize(square, resizeSize.value) else square
  }

  /** The side of every tile cut from height x width frames. */
  function TileSide(height: nat, width: nat, resizeSize: Option<nat>): nat
  {
    if IsTruthy(resizeSize) then resizeSize.value else Min(height, width)
  }

  lemma TileShape(f: Frame, height: nat, width: nat, resizeSize: Option<nat>, resize: Resizer)
    requires IsGrid(f, height, width)
    ensures var side := TileSide(height, width, resizeSize);
            IsGrid(Tile(f, resizeSize, resize), side, side)
  {
    assert |f| > 0 ==> Cols(f) == width;
  }

  /** The tiles of the given frames, in order. */
  function Tiles(frames: seq<Frame>, resizeSize: Option<nat>, resize: Resizer): seq<Frame>
  {
    seq(|frames|, k requires 0 <= k < |frames| => Tile(frames[k], resizeSize, resize))
  }

  /** Rasters concatenated top to bottom, in order. */
  function Stack(tiles: seq<Raster>): Raster
  {
    if tiles == [] then [] else Stack(tiles[..|tiles| - 1]) + tiles[|tiles| - 1]
  }

  /** The sprite sheet of the given frames: none without frames, otherwise
      their tiles stacked. */
  function SpriteSheet(frames: seq<Frame>, resizeSize: Option<nat>, resize: Resizer): Option<Raster>
  {
    if frames == [] then None else Some(Stack(Tiles(frames, resizeSize, resize)))
  }

  /** Stacking side x side tiles gives a side-wide image of side rows per
      tile. */
  lemma {:induction false} StackSize(tiles: seq<Raster>, side: nat)
    requires forall k :: 0 <= k < |tiles| ==> IsGrid(tiles[k], side, side)
    ensures IsGrid(Stack(tiles), |tiles| * side, side)
  {
    if tiles != [] {
      var m := |tiles| - 1;
      StackSize(tiles[..m], side);
      assert |tiles| * side == m * side + side;
    }
  }

  lemma BandBelow(j: nat, m: nat, side: nat)
    requires j < m
    ensures j * side + side <= m * side
  {
    assert m * side - (j + 1) * side == (m - (j + 1)) * side;
    assert (j + 1) * side == j * side + side;
  }

  /** The j-th band of side rows of a stack is the j-th tile. */
  lemma {:induction false} StackBand(tiles: seq<Raster>, side: nat, j: nat)
    requires forall k :: 0 <= k < |tiles| ==> IsGrid(tiles[k], side, side)
    requires j < |tiles|
    ensures 0 <= j * side <= j * side + side <= |Stack(tiles)|
    ensures Stack(tiles)[j * side..j * side + side] == tiles[j]
  {
    var m := |tiles| - 1;
    StackSize(tiles[..m], side);
    if j < m {
      BandBelow(j, m, side);
      StackBand(tiles[..m], side, j);
      assert tiles[..m][j] == tiles[j];
    }
  }

  /** img is the tiles one below the other: side columns, side rows per
      tile, and rows [j * side, (j + 1) * side) are tile j. */
  ghost predicate IsStackOf(img: Raster, tiles: seq<Raster>, side: nat)
  {
    IsGrid(img, |tiles| * side, side) &&
    forall j :: 0 <= j < |tiles| ==>
      0 <= j * side <= j * side + side <= |img| && img[j * side..j * side + side] == tiles[j]
  }

  /** Stacking side x side tiles lays them out in bands of side rows. */
  lemma StackIsBanded(tiles: seq<Raster>, side: nat)
    requires forall k :: 0 <= k < |tiles| ==> IsGrid(tiles[k], side, side)
    ensures IsStackOf(Stack(tiles), tiles, side)
  {
    StackSize(tiles, side);
    forall j | 0 <= j < |tiles|
      ensures 0 <= j * side <= j * side + side <= |Stack(tiles)|
      ensures Stack(tiles)[j * side..j * side + side] == tiles[j]
    {
      StackBand(tiles, side, j);
    }
  }

  /**
    With frames all height x width, the sprite sheet is None exactly when
    there are no frames; otherwise it is the frames' tiles, in order, each
    side x side, stacked one below the other.
   */
  lemma SpriteSheetShape(frames: seq<Frame>, height: nat, width: nat,
                         resizeSize: Option<nat>, resize: Resizer)
    requires forall k :: 0 <= k < |frames| ==> IsGrid(frames[k], height, width)
    ensures var img := SpriteSheet(frames, resizeSize, resize);
            (img.None? <==> frames == []) &&
            (img.Some? ==>
               IsStackOf(img.value, Tiles(frames, resizeSize, resize), TileSide(height, width, resizeSize)))
  {
    var side := TileSide(height, width, resizeSize);
    var tiles := Tiles(frames, resizeSize, resize);
    forall k | 0 <= k < |tiles|
      ensures IsGrid(tiles[k], side, side)
    {
      TileShape(frames[k], height, width, resizeSize, resize);
    }
    StackIsBanded(tiles, side);
  }

  /** Adding one frame to the sheet: it starts the sheet, or its tile goes
      below the sheet so far. */
  lemma SpriteSheetStep(frames: seq<Frame>, k: nat, resizeSize: Option<nat>, resize: Resizer)
    requires k < |frames|
    ensures var tile := Tile(frames[k], resizeSize, resize);
            var before := SpriteSheet(frames[..k], resizeSize, resize);
            SpriteSheet(frames[..k + 1], resizeSize, resize) ==
              if k == 0 then Some(tile) else Some(before.value + tile)
  {
    var tiles := Tiles(frames[..k + 1], resizeSize, resize);
    assert tiles[..k] == Tiles(frames[..k], resizeSize, resize);
    assert tiles[k] == Tile(frames[k], resizeSize, resize);
    assert Stack(tiles) == Stack(tiles[..k]) + tiles[k];
    assert frames[..k + 1] != [];
    if k == 0 {
      assert tiles[..k] == [];
      assert Stack(tiles) == tiles[k];
    } else {
      assert frames[..k] != [];
    }
  }

  /**
    convert_video_to_animation_img: sample the video, then fold the sampled
    frames into one image; None when nothing was sampled.
   */
  method ConvertVideoToAnimationImg(video: VideoCapture, resizeSize: Option<nat>, eachN: nat,
                                    resize: Resizer)
    returns (img: Option<Raster>)
    requires video.Valid() && eachN >= 1
    modifies video
    ensures video.Valid()
    ensures video.pos == old(video.pos) + Consumed(old(video.Remaining()))
    ensures img == SpriteSheet(EveryNth(Decoded(old(video.Remaining())), eachN), resizeSize, resize)
    ensures var sampled := EveryNth(Decoded(old(video.Remaining())), eachN);
            var side := TileSide(video.height, video.width, resizeSize);
            (img.None? <==> sampled == []) &&
            (img.None? <==> Decoded(old(video.Remaining())) == []) &&
            (img.Some? ==> IsStackOf(img.value, Tiles(sampled, resizeSize, resize), side))
  {
    ghost var decoded := Decoded(video.Remaining());
    EveryNthIsEmptyIff(decoded, eachN);
    var sampled := IterEachNFrame(video, eachN);
    img := None;
    for k := 0 to |sampled|
      invariant img == SpriteSheet(sampled[..k], resizeSize, resize)
      modifies {}
    {
      SpriteSheetStep(sampled, k, resizeSize, resize);
      var frame := CropRectangleAsSquare(sampled[k]);
      if IsTruthy(resizeSize) {
        frame := resize(frame, resizeSize.value);
      }
      if img.None? {
        img := Some(frame);
      } else {
        img := Some(img.value + frame);
      }
    }
    assert sampled[..|sampled|] == sampled;
    SpriteSheetShape(sampled, video.height, video.width, resizeSize, resize);
  }

  /** The frame side the program animates at: the requested one, or else the
      largest power of two not exceeding the smaller video dimension. */
  function AnimationResolution(requested: Option<nat>, width: nat, height: nat): (side: nat)
    requires requested.Some? ==> IsPowerOfTwo(requested.value)
    requires requested.None? ==> Min(width, height) >= 1
    ensures IsPowerOfTwo(side)
    ensures requested.Some? ==> side == requested.value
    ensures requested.None? ==> side <= Min(width, height) < 2 * side
  {
    if requested.Some? then requested.value else ReduceToPowerOf2(Min(width, height))
  }

  /**
    The program's pipeline after its prompts: pick the resolution, then
    convert with it, so every tile is resized to that side.
   */
  method MakeAnimation(video: VideoCapture, requested: Option<nat>, reduction: nat, resize: Resizer)
    returns (img: Option<Raster>)
    requires video.Valid() && reduction >= 1
    requires requested.Some? ==> IsPowerOfTwo(requested.value)
    requires requested.None? ==> Min(video.width, video.height) >= 1
    modifies video
    ensures video.Valid()
    ensures video.pos == old(video.pos) + Consumed(old(video.Remaining()))
    ensures var side := AnimationResolution(requested, video.width, video.height);
            var sampled := EveryNth(Decoded(old(video.Remaining())), reduction);
            img == SpriteSheet(sampled, Some(side), resize) &&
            (img.Some? ==> IsGrid(img.value, |sampled| * side, side))
  {
    var side := AnimationResolution(requested, video.width, video.height);
    img := ConvertVideoToAnimationImg(video, Some(side), reduction, resize);
  }

  /**
    Whatever the resolution prompt accepted (a size or the default), the
    sprite sheet built from frames of one size is made of power-of-two
    square tiles: side columns and side times the frame count rows.
   */
  lemma SpriteSheetTilesArePowerOfTwo(line: string, requested: Option<nat>, frames: seq<Frame>,
                                      height: nat, width: nat, resize: Resizer)
    requires CheckResolution(line) == Accept(requested)
    requires requested.None? ==> Min(width, height) >= 1
    requires frames != []
    requires forall k :: 0 <= k < |frames| ==> IsGrid(frames[k], height, width)
    ensures var side := AnimationResolution(requested, width, height);
            var img := SpriteSheet(frames, Some(side), resize);
            IsPowerOfTwo(side) && img.Some? && IsGrid(img.value, |frames| * side, side)
  {
    var side := AnimationResolution(requested, width, height);
    SpriteSheetShape(frames, height, width, Some(side), resize);
  }
}
