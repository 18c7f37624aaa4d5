/** The time-lapse script (create-time-lapse.py): it picks the timestamped images of a
    directory whose local time falls in an epoch window, orders them by time and path, and
    repeats each one for a fixed number of video frames. The directory listing is a
    parameter, in the order the operating system gives it; so is the time zone database:
    for the stamp text of a name, whether it parses and how the zone places it. Writing the
    video is left out. */
module TimeLapse {
  import opened Wrappers
  import opened Text
  import opened Sorting

  // ---------------------------------------------------------------------------------
  // Which names are images with a time stamp

  /** The file name extensions the script accepts, in any letter case. */
  predicate HasImageExt(name: string) {
    var lower := AsciiLower(name);
    EndsWith(lower, ".png") || EndsWith(lower, ".jpg") || EndsWith(lower, ".jpeg")
  }

  /** The length of the accepted extension a name ends with, its dot excluded. */
  function ExtLen(name: string): (n: nat)
    requires HasImageExt(name)
    ensures n == 3 || n == 4
    ensures n + 1 <= |name|
  {
    if EndsWith(AsciiLower(name), ".jpeg") then 4 else 3
  }

  predicate IsDigitAt(s: string, i: nat)
    requires i < |s|
  {
    IsAsciiDigit(s[i])
  }

  /** `YYYY-MM-DD_HH-MM-SS.mmm`: digits with '-', '_' and '.' at their places. */
  predicate IsStamp(s: string) {
    |s| == 23 &&
    (forall i :: 0 <= i < 23 && i !in {4, 7, 10, 13, 16, 19} ==> IsDigitAt(s, i)) &&
    s[4] == '-' && s[7] == '-' && s[10] == '_' && s[13] == '-' && s[16] == '-' && s[19] == '.'
  }

  /** A name the script considers: an accepted extension, and the pattern
      `^(stamp).*\.(png|jpg|jpeg)$` with the stamp as its first 23 characters and no line
      feed between the stamp and the extension's dot. */
  predicate Considered(name: string) {
    HasImageExt(name) && |name| >= 23 + 1 + ExtLen(name) && IsStamp(name[..23]) &&
    '\n' !in name[23..|name| - 1 - ExtLen(name)]
  }

  // ---------------------------------------------------------------------------------
  // Placing a stamp in time

  /** What the zone database makes of a stamp: it does not parse, it names one instant, it
      is ambiguous (the instant outside daylight saving time is given), or it falls in a
      gap. */
  datatype Reading = Unparsable | Unique(epoch: real) | Ambiguous(standardEpoch: real) | NonExistent

  /** The instant the script uses: an ambiguous time as standard time; an unparsable stamp
      or one in a gap is skipped. */
  function EpochOf(r: Reading): (e: Option<real>)
    ensures e.Some? <==> r.Unique? || r.Ambiguous?
  {
    match r
    case Unique(e) => Some(e)
    case Ambiguous(e) => Some(e)
    case _ => None
  }

  /** `start <= epoch <= end`, both ends included; None is an unbounded end. */
  predicate InWindow(e: real, start: real, end: Option<real>) {
    start <= e && (end.None? || e <= end.value)
  }

  /** The image a name contributes, if any: its instant and its path. */
  function Pick(input: string, name: string, clock: string -> Reading, start: real, end: Option<real>): Option<(real, string)> {
    if !Considered(name) then None
    else
      match EpochOf(clock(name[..23]))
      case None => None
      case Some(e) => if InWindow(e, start, end) then Some((e, PathJoin(input, name))) else None
  }

  function PickOf(input: string, clock: string -> Reading, start: real, end: Option<real>): string -> Option<(real, string)> {
    name => Pick(input, name, clock, start, end)
  }

  /** The images the scan collects, in listing order. */
  function Selected(input: string, names: seq<string>, clock: string -> Reading, start: real, end: Option<real>): (images: seq<(real, string)>)
    ensures |images| <= |names|
  {
    Chosen(names, PickOf(input, clock, start, end))
  }

  /** An image is collected exactly when a name in the listing gives it. */
  lemma SelectedMembers(input: string, names: seq<string>, clock: string -> Reading,
                        start: real, end: Option<real>, im: (real, string))
    ensures im in Selected(input, names, clock, start, end) <==>
              exists i :: 0 <= i < |names| && Pick(input, names[i], clock, start, end) == Some(im)
  {
    var pick := PickOf(input, clock, start, end);
    ChosenMembers(names, pick, im);
    assert forall i :: 0 <= i < |names| ==> pick(names[i]) == Pick(input, names[i], clock, start, end);
  }

  /** A collected image lies inside the window, and comes from a considered name whose
      stamp places it at its instant and whose path it carries. */
  lemma SelectedSound(input: string, names: seq<string>, clock: string -> Reading,
                      start: real, end: Option<real>, im: (real, string))
    requires im in Selected(input, names, clock, start, end)
    ensures InWindow(im.0, start, end)
    ensures exists i :: 0 <= i < |names| && Considered(names[i]) &&
                        EpochOf(clock(names[i][..23])) == Some(im.0) && im.1 == PathJoin(input, names[i])
  {
    SelectedMembers(input, names, clock, start, end, im);
    var i :| 0 <= i < |names| && Pick(input, names[i], clock, start, end) == Some(im);
  }

  /** The scan loop over the listing, appending each collected image. */
  method Scan(input: string, names: seq<string>, clock: string -> Reading, start: real, end: Option<real>)
    returns (images: seq<(real, string)>)
    ensures images == Selected(input, names, clock, start, end)
  {
    images := [];
    for i := 0 to |names|
      invariant images == Chosen(names[..i], PickOf(input, clock, start, end))
    {
      assert names[..i + 1][..i] == names[..i];
      match Pick(input, names[i], clock, start, end) {
        case Some(image) => images := images + [image];
        case None =>
      }
    }
    assert names[..|names|] == names;
  }

  // ---------------------------------------------------------------------------------
  // Ordering and frames

  /** Python's order on `(epoch, path)` pairs: by instant, then by path in code point
      order. */
  predicate ImageLe(a: (real, string), b: (real, string)) {
    a.0 < b.0 || (a.0 == b.0 && LexLe(Codes(a.1), Codes(b.1)))
  }

  lemma ImageLeTotalPreorder()
    ensures TotalPreorder(ImageLe)
  {
    forall a: (real, string), b: (real, string) ensures ImageLe(a, b) || ImageLe(b, a) {
      LexLeTotal(Codes(a.1), Codes(b.1));
    }
    forall a: (real, string), b: (real, string), c: (real, string) | ImageLe(a, b) && ImageLe(b, c)
      ensures ImageLe(a, c)
    {
      if a.0 == b.0 == c.0 {
        LexLeTransitive(Codes(a.1), Codes(b.1), Codes(c.1));
      }
    }
  }

  /** Two images with the same instant and path are the same entry. */
  lemma ImageLeAntisymmetric(a: (real, string), b: (real, string))
    requires ImageLe(a, b) && ImageLe(b, a)
    ensures a == b
  {
    LexLeAntisymmetric(Codes(a.1), Codes(b.1));
    CodesInjective(a.1, b.1);
  }

  function Paths(images: seq<(real, string)>): (ps: seq<string>)
    ensures |ps| == |images|
    ensures forall i :: 0 <= i < |images| ==> ps[i] == images[i].1
  {
    seq(|images|, i requires 0 <= i < |images| => images[i].1)
  }

  /** Each path `n` times in a row, in order. */
  function Repeat(ps: seq<string>, n: nat): seq<string> {
    if ps == [] then [] else Repeat(ps[..|ps| - 1], n) + seq(n, _ => Last(ps))
  }

  /** A positive multiple of a positive number is at least that number. */
  lemma {:induction false} MulAtLeast(d: int, n: int)
    requires d >= 1 && n > 0
    ensures d * n >= n
    decreases d
  {
    if d > 1 {
      MulAtLeast(d - 1, n);
      assert d * n == (d - 1) * n + n;
    }
  }

  /** Euclidean division finds the block: `m * n + j` with `j < n` divided by `n` is `m`. */
  lemma DivInBlock(m: int, j: int, n: int)
    requires n > 0 && 0 <= j < n
    ensures (m * n + j) / n == m
  {
    var k := m * n + j;
    var q := k / n;
    var r := k % n;
    assert q * n + r == k;
    assert (q - m) * n == j - r;
    if q > m {
      MulAtLeast(q - m, n);
    } else if q < m {
      MulAtLeast(m - q, n);
    }
  }

  /** Below `p * n`, the quotient by `n` is below `p`. */
  lemma DivBelow(k: int, n: int, p: int)
    requires n > 0 && 0 <= k < p * n
    ensures 0 <= k / n < p
  {
    var q := k / n;
    assert q * n + k % n == k;
    if q > p {
      MulAtLeast(q - p, n);
    }
  }

  /** The frame list holds `n` frames per path, and frame `k` shows path `k / n`. */
  lemma {:induction false} RepeatFrames(ps: seq<string>, n: nat)
    requires n > 0
    ensures |Repeat(ps, n)| == |ps| * n
    ensures forall k :: 0 <= k < |ps| * n ==> 0 <= k / n < |ps|
    ensures forall k :: 0 <= k < |ps| * n && k / n < |ps| ==> Repeat(ps, n)[k] == ps[k / n]
    decreases |ps|
  {
    forall k | 0 <= k < |ps| * n ensures 0 <= k / n < |ps| {
      DivBelow(k, n, |ps|);
    }
    if ps == [] {
      assert |ps| * n == 0;
    } else {
      var front := ps[..|ps| - 1];
      RepeatFrames(front, n);
      MulSucc(|front|, n);
      assert |Repeat(ps, n)| == |ps| * n;
      forall k | 0 <= k < |ps| * n && k / n < |ps| ensures Repeat(ps, n)[k] == ps[k / n] {
        if k < |front| * n {
          DivBelow(k, n, |front|);
        }
        RepeatAt(ps, front, n, k);
      }
    }
  }

  lemma {:induction false} MulSucc(m: nat, n: nat)
    ensures (m + 1) * n == m * n + n
  {
  }

  /** Frame `k` of one more path: an earlier frame of the shorter list, or the new path. */
  lemma {:induction false} RepeatAt(ps: seq<string>, front: seq<string>, n: nat, k: nat)
    requires ps != [] && front == ps[..|ps| - 1] && n > 0
    requires |Repeat(front, n)| == |front| * n && |ps| * n == |front| * n + n
    requires |Repeat(ps, n)| == |ps| * n && k < |ps| * n && k / n < |ps|
    requires k < |front| * n ==> k / n < |front| && Repeat(front, n)[k] == front[k / n]
    ensures Repeat(ps, n)[k] == ps[k / n]
  {
    var m := |front|;
    var head, tail := Repeat(front, n), seq(n, _ => Last(ps));
    assert Repeat(ps, n) == head + tail;
    if k < m * n {
      assert Repeat(ps, n)[k] == head[k];
      assert front[k / n] == ps[k / n];
    } else {
      var j := k - m * n;
      assert m * n + j == k && j < n;
      DivInBlock(m, j, n);
      assert Repeat(ps, n)[k] == tail[j];
    }
  }

  // ---------------------------------------------------------------------------------
  // The whole run

  /** How a run ends: an unknown zone name, too few frames per image (the assertion), no
      image in the window, or the frames of the video in order. */
  datatype Outcome = UnknownZone | FramesTooFew | NoImages | Video(frames: seq<string>)

  /** What `main` does: the zone is checked first and the frame count next, both before
      the directory is read. `framesPerImage` is `round(duration * fps)`. */
  function Plan(zoneKnown: bool, framesPerImage: int, input: string, names: seq<string>,
                clock: string -> Reading, start: real, end: Option<real>): Outcome
  {
    if !zoneKnown then UnknownZone
    else if framesPerImage <= 0 then FramesTooFew
    else
      var images := Selected(input, names, clock, start, end);
      if images == [] then NoImages
      else Video(Repeat(Paths(Sort(images, ImageLe)), framesPerImage))
  }

  /** `main`, from the zone lookup to the frame list. */
  method CreateTimeLapse(zoneKnown: bool, framesPerImage: int, input: string, names: seq<string>,
              clock: string -> Reading, start: real, end: Option<real>)
    returns (o: Outcome)
    ensures o == Plan(zoneKnown, framesPerImage, input, names, clock, start, end)
  {
    if !zoneKnown {
      return UnknownZone;
    }
    if framesPerImage <= 0 {
      return FramesTooFew;
    }
    var imageData := Scan(input, names, clock, start, end);
    if imageData == [] {
      return NoImages;
    }
    imageData := Sort(imageData, ImageLe);
    var sortedPaths := Paths(imageData);
    o := Video(Repeat(sortedPaths, framesPerImage));
  }

  /** A video is the collected images ordered by instant and then path, a permutation of
      them, each path repeated for `framesPerImage` frames (RepeatFrames says how). */
  lemma VideoFrames(zoneKnown: bool, framesPerImage: int, input: string, names: seq<string>,
                    clock: string -> Reading, start: real, end: Option<real>)
    requires Plan(zoneKnown, framesPerImage, input, names, clock, start, end).Video?
    ensures zoneKnown && framesPerImage > 0
    ensures var images := Selected(input, names, clock, start, end);
            var sorted := Sort(images, ImageLe);
            images != [] && multiset(sorted) == multiset(images) && SortedBy(sorted, ImageLe) &&
            Plan(zoneKnown, framesPerImage, input, names, clock, start, end).frames ==
              Repeat(Paths(sorted), framesPerImage)
  {
    var images := Selected(input, names, clock, start, end);
    ImageLeTotalPreorder();
    SortSorted(images, ImageLe);
  }

  /** With a known zone and a positive frame count, no video is made exactly when no image
      of the listing falls in the window. */
  lemma NoImagesExactly(framesPerImage: int, input: string, names: seq<string>,
                        clock: string -> Reading, start: real, end: Option<real>)
    requires framesPerImage > 0
    ensures Plan(true, framesPerImage, input, names, clock, start, end) == NoImages <==>
              forall i :: 0 <= i < |names| ==> Pick(input, names[i], clock, start, end).None?
  {
    var images := Selected(input, names, clock, start, end);
    if images != [] {
      SelectedMembers(input, names, clock, start, end, images[0]);
    } else {
      forall i | 0 <= i < |names| ensures Pick(input, names[i], clock, start, end).None? {
        var p := Pick(input, names[i], clock, start, end);
        if p.Some? {
          SelectedMembers(input, names, clock, start, end, p.value);
        }
      }
    }
  }
}
