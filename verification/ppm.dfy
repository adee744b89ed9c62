/**
 * The image serialiser: the plain ("P3") variant of the Netpbm PPM format.
 * A three-line header ("P3", "width height", "255") is followed by the
 * pixels as decimal byte triples, packed greedily into lines of at most
 * 70 characters. The file itself is not part of this model; the lines are.
 */
module Netpbm {
  import opened Options
  import opened Colors
  import opened Seqs
  import opened Text
  import opened Canvases

  /** The longest pixel line the format allows. */
  const MaxLineLen: nat := 70

  /** The three header lines: magic number, width and height, maximum colour value. */
  function Header(width: nat, height: nat): seq<string>
  {
    ["P3", Dec(width) + " " + Dec(height), "255"]
  }

  /** The words of a byte triple: its three channels in decimal. */
  function ByteWords(b: ColorU8): (ws: seq<string>)
    ensures |ws| == 3
  {
    [Dec(b.red as nat), Dec(b.green as nat), Dec(b.blue as nat)]
  }

  /** A byte triple as written into a pixel line: the three decimals separated by single spaces. */
  function U8String(b: ColorU8): (s: string)
    ensures 5 <= |s| <= 11
  {
    Dec(b.red as nat) + " " + Dec(b.green as nat) + " " + Dec(b.blue as nat)
  }

  /** Splitting a triple on its spaces gives its three words back. */
  lemma SplitU8String(b: ColorU8)
    ensures Split(U8String(b)) == ByteWords(b)
  {
    var r, g, bl := Dec(b.red as nat), Dec(b.green as nat), Dec(b.blue as nat);
    SplitAppend(r, g + " " + bl);
    SplitAppend(g, bl);
    SplitNoSpace(r);
    SplitNoSpace(g);
    SplitNoSpace(bl);
    assert r + " " + g + " " + bl == r + " " + (g + " " + bl);
  }

  /** `color_to_ppm_string`: the colour converted to bytes, then written as a triple. */
  function PixelString(c: Color): string
  {
    U8String(NormalizeU8(c))
  }

  /** The length the Rust implementation's running `linelen` gives a line: each string plus one separator. */
  function LineLen(g: seq<string>): nat
  {
    if g == [] then 0 else |g[0]| + 1 + LineLen(g[1..])
  }

  /**
   * The greedy packing `add_canvas` performs: `open` is the line being
   * filled, `rest` the strings still to come. A string goes on the open
   * line unless the line's running length plus the string would exceed
   * MaxLineLen; then the open line is closed and the string opens the next.
   * The last line is closed when the strings run out, even an empty one.
   */
  function Pack(open: seq<string>, rest: seq<string>): (groups: seq<seq<string>>)
    ensures 1 <= |groups|
    ensures |open| <= |groups[0]| && groups[0][..|open|] == open
    decreases |rest|
  {
    if rest == [] then [open]
    else if LineLen(open) + |rest[0]| > MaxLineLen then [open] + Pack([rest[0]], rest[1..])
    else
      var groups := Pack(open + [rest[0]], rest[1..]);
      assert groups[0][..|open|] == groups[0][..|open| + 1][..|open|];
      groups
  }

  /** Each group of strings joined into one line. */
  function JoinLines(groups: seq<seq<string>>): (lines: seq<string>)
    ensures |lines| == |groups|
  {
    if groups == [] then [] else [Join(groups[0])] + JoinLines(groups[1..])
  }

  /** The i-th line is the i-th group joined. */
  lemma {:induction false} JoinLinesAt(groups: seq<seq<string>>)
    ensures forall i :: 0 <= i < |groups| ==> JoinLines(groups)[i] == Join(groups[i])
    decreases |groups|
  {
    if groups != [] {
      JoinLinesAt(groups[1..]);
    }
  }

  /** The pixel lines for a sequence of pixel strings. */
  function PackLines(strs: seq<string>): seq<string>
  {
    JoinLines(Pack([], strs))
  }

  /** The strings of a sequence of pixels, in order. */
  function PixelStrings(cs: seq<Color>): (strs: seq<string>)
    ensures |strs| == |cs|
  {
    if cs == [] then [] else [PixelString(cs[0])] + PixelStrings(cs[1..])
  }

  /** The i-th string is the string of the i-th pixel. */
  lemma {:induction false} PixelStringsAt(cs: seq<Color>)
    ensures forall i :: 0 <= i < |cs| ==> PixelStrings(cs)[i] == PixelString(cs[i])
    decreases |cs|
  {
    if cs != [] {
      PixelStringsAt(cs[1..]);
    }
  }

  /** The strings of a sequence of byte triples, in order. */
  function U8Strings(bs: seq<ColorU8>): (strs: seq<string>)
    ensures |strs| == |bs|
    ensures forall i :: 0 <= i < |bs| ==> strs[i] == U8String(bs[i])
  {
    if bs == [] then [] else [U8String(bs[0])] + U8Strings(bs[1..])
  }

  /** Every pixel converted to bytes, in order. */
  function ToBytes(cs: seq<Color>): (bs: seq<ColorU8>)
    ensures |bs| == |cs|
    ensures forall i :: 0 <= i < |cs| ==> bs[i] == NormalizeU8(cs[i])
  {
    if cs == [] then [] else [NormalizeU8(cs[0])] + ToBytes(cs[1..])
  }

  /** The words of a sequence of byte triples, three per triple, in order. */
  function Words(bs: seq<ColorU8>): (ws: seq<string>)
    ensures |ws| == 3 * |bs|
  {
    if bs == [] then [] else ByteWords(bs[0]) + Words(bs[1..])
  }

  lemma {:induction false} LineLenAppend(g: seq<string>, s: string)
    ensures LineLen(g + [s]) == LineLen(g) + |s| + 1
    decreases |g|
  {
    if g == [] {
      assert g + [s] == [s];
    } else {
      assert (g + [s])[1..] == g[1..] + [s];
      LineLenAppend(g[1..], s);
    }
  }

  /** The running `linelen` of a non-empty line is its joined length plus one. */
  lemma {:induction false} LineLenIsJoinedLengthPlusOne(g: seq<string>)
    ensures g != [] ==> LineLen(g) == |Join(g)| + 1
    ensures g == [] ==> LineLen(g) == 0 && Join(g) == ""
    decreases |g|
  {
    if 1 < |g| {
      LineLenIsJoinedLengthPlusOne(g[1..]);
    }
  }

  /** Packing neither loses, duplicates nor reorders a string: the lines read in order give them back. */
  lemma {:induction false} PackKeepsOrder(open: seq<string>, rest: seq<string>)
    ensures Concat(Pack(open, rest)) == open + rest
    decreases |rest|
  {
    if rest == [] {
      assert Concat([open]) == open + Concat([]);
    } else if LineLen(open) + |rest[0]| > MaxLineLen {
      PackKeepsOrder([rest[0]], rest[1..]);
      var groups := [open] + Pack([rest[0]], rest[1..]);
      assert groups[1..] == Pack([rest[0]], rest[1..]);
      assert [rest[0]] + rest[1..] == rest;
    } else {
      PackKeepsOrder(open + [rest[0]], rest[1..]);
      assert open + [rest[0]] + rest[1..] == open + rest;
    }
  }

  /** Line fits: no line's running length goes past MaxLineLen plus its trailing separator. */
  lemma {:induction false} PackBounded(open: seq<string>, rest: seq<string>)
    requires LineLen(open) <= MaxLineLen + 1
    requires forall i :: 0 <= i < |rest| ==> |rest[i]| <= MaxLineLen
    ensures forall i :: 0 <= i < |Pack(open, rest)| ==> LineLen(Pack(open, rest)[i]) <= MaxLineLen + 1
    decreases |rest|
  {
    if rest != [] {
      if LineLen(open) + |rest[0]| > MaxLineLen {
        assert LineLen([rest[0]]) == |rest[0]| + 1 by {
          LineLenAppend([], rest[0]);
          assert [] + [rest[0]] == [rest[0]];
        }
        PackBounded([rest[0]], rest[1..]);
        var groups := [open] + Pack([rest[0]], rest[1..]);
        assert forall i :: 1 <= i < |groups| ==> groups[i] == Pack([rest[0]], rest[1..])[i - 1];
      } else {
        LineLenAppend(open, rest[0]);
        PackBounded(open + [rest[0]], rest[1..]);
      }
    }
  }

  /** Greedy packing: a line is closed only when the next string would not fit on it, and every string that fits goes on. */
  ghost predicate Greedy(groups: seq<seq<string>>)
  {
    && (forall i :: 1 <= i < |groups| ==>
          groups[i] != [] && LineLen(groups[i - 1]) + |groups[i][0]| > MaxLineLen)
    && (forall i :: 0 <= i < |groups| ==> FilledGreedily(groups[i]))
  }

  /** Every string after the first of `g` fitted on the line when it was added. */
  ghost predicate FilledGreedily(g: seq<string>)
  {
    forall j :: 1 <= j < |g| ==> LineLen(g[..j]) + |g[j]| <= MaxLineLen
  }

  lemma FilledGreedilyAppend(g: seq<string>, s: string)
    requires FilledGreedily(g)
    requires g != [] ==> LineLen(g) + |s| <= MaxLineLen
    ensures FilledGreedily(g + [s])
  {
    var next := g + [s];
    forall j | 1 <= j < |next|
      ensures LineLen(next[..j]) + |next[j]| <= MaxLineLen
    {
      if j < |g| {
        assert next[..j] == g[..j];
      } else {
        assert next[..j] == g;
      }
    }
  }

  lemma GreedyCons(g: seq<string>, tail: seq<seq<string>>)
    requires FilledGreedily(g) && Greedy(tail)
    requires tail != [] && tail[0] != [] && LineLen(g) + |tail[0][0]| > MaxLineLen
    ensures Greedy([g] + tail)
  {
    var groups := [g] + tail;
    forall i | 1 <= i < |groups|
      ensures groups[i] != [] && LineLen(groups[i - 1]) + |groups[i][0]| > MaxLineLen
    {
      assert groups[i] == tail[i - 1];
      if 1 < i {
        assert groups[i - 1] == tail[i - 2];
      }
    }
    forall i | 0 <= i < |groups|
      ensures FilledGreedily(groups[i])
    {
      if 0 < i {
        assert groups[i] == tail[i - 1];
      }
    }
  }

  /** The packing closes a line exactly when the next string would overflow it. */
  lemma {:induction false} PackIsGreedy(open: seq<string>, rest: seq<string>)
    requires FilledGreedily(open)
    ensures Greedy(Pack(open, rest))
    decreases |rest|
  {
    if rest == [] {
    } else if LineLen(open) + |rest[0]| > MaxLineLen {
      PackIsGreedy([rest[0]], rest[1..]);
      var tail := Pack([rest[0]], rest[1..]);
      assert tail[0][..1] == [rest[0]];
      GreedyCons(open, tail);
    } else {
      FilledGreedilyAppend(open, rest[0]);
      PackIsGreedy(open + [rest[0]], rest[1..]);
    }
  }

  /** One step of the packing: the next string either overflows the open line or joins it. */
  lemma PackStep(open: seq<string>, rest: seq<string>)
    requires rest != []
    ensures LineLen(open) + |rest[0]| > MaxLineLen ==> Pack(open, rest) == [open] + Pack([rest[0]], rest[1..])
    ensures LineLen(open) + |rest[0]| <= MaxLineLen ==> Pack(open, rest) == Pack(open + [rest[0]], rest[1..])
  {
  }

  /** The loop of `add_canvas` keeps its closed lines and open line in step with the packing of all strings. */
  lemma PackAdvance(done: seq<seq<string>>, open: seq<string>, s: string, todo: seq<string>, all: seq<string>)
    requires done + Pack(open, [s] + todo) == Pack([], all)
    ensures LineLen(open) + |s| > MaxLineLen ==> (done + [open]) + Pack([] + [s], todo) == Pack([], all)
    ensures LineLen(open) + |s| <= MaxLineLen ==> done + Pack(open + [s], todo) == Pack([], all)
  {
    PackStep(open, [s] + todo);
    assert ([s] + todo)[1..] == todo;
    assert [] + [s] == [s];
  }

  lemma JoinLinesAppend(a: seq<seq<string>>, b: seq<seq<string>>)
    ensures JoinLines(a + b) == JoinLines(a) + JoinLines(b)
  {
    JoinLinesAt(a + b);
    JoinLinesAt(a);
    JoinLinesAt(b);
    assert forall i :: 0 <= i < |a + b| ==> JoinLines(a + b)[i] == (JoinLines(a) + JoinLines(b))[i];
  }

  /**
   * The state of the loop of `add_canvas` after some pixels: the lines it closed
   * (`body`, from the groups `done`), the open line `pixels` and its length
   * `linelen`, with the colours still to come in `rest`, are the greedy packing
   * of `all` so far.
   */
  ghost predicate Packed(done: seq<seq<string>>, lines: seq<string>, pixels: seq<string>, linelen: nat,
                         rest: seq<Color>, all: seq<string>)
  {
    && done + Pack(pixels, PixelStrings(rest)) == Pack([], all)
    && lines == JoinLines(done)
    && linelen == LineLen(pixels)
  }

  /** One turn of the loop keeps Packed: close the open line when the next string overflows it, then add the string. */
  lemma PackedStep(done: seq<seq<string>>, lines: seq<string>, pixels: seq<string>, linelen: nat,
                   c: Color, rest: seq<Color>, all: seq<string>)
    requires Packed(done, lines, pixels, linelen, [c] + rest, all)
    ensures var s := PixelString(c);
      linelen + |s| > MaxLineLen ==>
        Packed(done + [pixels], lines + [Join(pixels)], [] + [s], 0 + |s| + 1, rest, all)
    ensures var s := PixelString(c);
      linelen + |s| <= MaxLineLen ==>
        Packed(done, lines, pixels + [s], linelen + |s| + 1, rest, all)
  {
    var s := PixelString(c);
    assert ([c] + rest)[0] == c && ([c] + rest)[1..] == rest;
    assert PixelStrings([c] + rest) == [s] + PixelStrings(rest);
    PackAdvance(done, pixels, s, PixelStrings(rest), all);
    JoinLinesAppend(done, [pixels]);
    LineLenAppend(pixels, s);
    LineLenAppend([], s);
    assert [] + [s] == [s];
  }

  /** When the strings run out, the closed lines and the open line are the whole packing. */
  lemma PackClose(done: seq<seq<string>>, open: seq<string>, all: seq<string>)
    requires done + Pack(open, []) == Pack([], all)
    ensures JoinLines(done) + [Join(open)] == PackLines(all)
  {
    JoinLinesAppend(done, [open]);
  }

  /** What the pixel lines after any earlier lines promise: they fit, and they read back as the pixels. */
  lemma PixelLines(before: seq<string>, cs: seq<Color>)
    ensures forall i :: |before| <= i < |before + PackLines(PixelStrings(cs))| ==>
              |(before + PackLines(PixelStrings(cs)))[i]| <= MaxLineLen
    ensures DecodeBody((before + PackLines(PixelStrings(cs)))[|before|..]) == Some(ToBytes(cs))
  {
    var body := PackLines(PixelStrings(cs));
    PixelStringsAt(cs);
    PackLinesFit(PixelStrings(cs));
    BodyRoundTrip(cs);
    assert (before + body)[|before|..] == body;
  }

  /** Every pixel line fits, provided every string does. */
  lemma PackLinesFit(strs: seq<string>)
    requires forall i :: 0 <= i < |strs| ==> |strs[i]| <= MaxLineLen
    ensures forall i :: 0 <= i < |PackLines(strs)| ==> |PackLines(strs)[i]| <= MaxLineLen
  {
    var groups := Pack([], strs);
    PackBounded([], strs);
    JoinLinesAt(groups);
    forall i | 0 <= i < |groups|
      ensures |Join(groups[i])| <= MaxLineLen
    {
      LineLenIsJoinedLengthPlusOne(groups[i]);
    }
  }

  /** With no pixels a single empty line is still written. */
  lemma NoPixelsGiveOneEmptyLine()
    ensures PackLines([]) == [""]
  {
  }

  /** Reads one byte back from its decimal form. */
  function ParseByte(w: string): (b: Option<Byte>)
    ensures b.Some? ==> ParseDec(w) == Some(b.value as nat)
  {
    match ParseDec(w)
    case Some(n) => if n < 256 then Some(n as Byte) else None
    case None => None
  }

  /** Regroups words in threes into byte triples; a count that is not a multiple of three, or a bad word, is rejected. */
  function DecodeWords(ws: seq<string>): Option<seq<ColorU8>>
    decreases |ws|
  {
    if ws == [] then Some([])
    else if |ws| < 3 then None
    else match (ParseByte(ws[0]), ParseByte(ws[1]), ParseByte(ws[2]), DecodeWords(ws[3..]))
      case (Some(r), Some(g), Some(b), Some(rest)) => Some([ColorU8(r, g, b)] + rest)
      case _ => None
  }

  /** Reads one pixel line back: the empty line holds no pixels; otherwise split on spaces and regroup. */
  function DecodeLine(line: string): Option<seq<ColorU8>>
  {
    if line == "" then Some([]) else DecodeWords(Split(line))
  }

  /** Reads every pixel line back, each line on its own, and puts the pixels in line order. */
  function DecodeBody(lines: seq<string>): Option<seq<ColorU8>>
  {
    if lines == [] then Some([])
    else match (DecodeLine(lines[0]), DecodeBody(lines[1..]))
      case (Some(first), Some(rest)) => Some(first + rest)
      case _ => None
  }

  lemma ParseByteOfDec(b: Byte)
    ensures ParseByte(Dec(b as nat)) == Some(b)
  {
    ParseDecOfDec(b as nat);
  }

  lemma {:induction false} DecodeWordsOfBytes(bs: seq<ColorU8>)
    ensures DecodeWords(Words(bs)) == Some(bs)
    decreases |bs|
  {
    if bs != [] {
      var b := bs[0];
      var ws := Words(bs);
      assert ws[3..] == Words(bs[1..]);
      ParseByteOfDec(b.red);
      ParseByteOfDec(b.green);
      ParseByteOfDec(b.blue);
      DecodeWordsOfBytes(bs[1..]);
      assert [b] + bs[1..] == bs;
    }
  }

  /** Splitting a joined line of triples gives the words of the triples, in order. */
  lemma {:induction false} SplitJoinedTriples(bs: seq<ColorU8>)
    requires bs != []
    ensures Split(Join(U8Strings(bs))) == Words(bs)
    decreases |bs|
  {
    var strs := U8Strings(bs);
    SplitU8String(bs[0]);
    if |bs| == 1 {
      assert Words(bs) == ByteWords(bs[0]) + Words([]);
    } else {
      assert strs[1..] == U8Strings(bs[1..]);
      SplitAppend(strs[0], Join(strs[1..]));
      SplitJoinedTriples(bs[1..]);
    }
  }

  /** One pixel line reads back as the triples it was written from. */
  lemma DecodeLineOfTriples(bs: seq<ColorU8>)
    ensures DecodeLine(Join(U8Strings(bs))) == Some(bs)
  {
    if bs != [] {
      assert |Join(U8Strings(bs))| != 0 by {
        LineLenIsJoinedLengthPlusOne(U8Strings(bs));
        assert LineLen(U8Strings(bs)) > 1;
      }
      SplitJoinedTriples(bs);
      DecodeWordsOfBytes(bs);
    }
  }

  /** Any split of the strings of `bs` into lines reads back as `bs`: no pixel is lost, duplicated or split across lines. */
  lemma {:induction false} DecodeGroups(groups: seq<seq<string>>, bs: seq<ColorU8>)
    requires Concat(groups) == U8Strings(bs)
    ensures DecodeBody(JoinLines(groups)) == Some(bs)
    decreases |groups|
  {
    if groups != [] {
      var n := |groups[0]|;
      assert Concat(groups) == groups[0] + Concat(groups[1..]);
      assert groups[0] == U8Strings(bs[..n]);
      assert Concat(groups[1..]) == U8Strings(bs[n..]);
      var lines := JoinLines(groups);
      assert lines == [Join(groups[0])] + JoinLines(groups[1..]);
      assert lines[0] == Join(groups[0]) && lines[1..] == JoinLines(groups[1..]);
      DecodeLineOfTriples(bs[..n]);
      DecodeGroups(groups[1..], bs[n..]);
      assert bs[..n] + bs[n..] == bs;
    }
  }

  /** The pixel lines of any pixels read back as those pixels converted to bytes, in order. */
  lemma BodyRoundTrip(cs: seq<Color>)
    ensures DecodeBody(PackLines(PixelStrings(cs))) == Some(ToBytes(cs))
  {
    var bs := ToBytes(cs);
    PixelStringsAt(cs);
    assert PixelStrings(cs) == U8Strings(bs);
    PackKeepsOrder([], U8Strings(bs));
    DecodeGroups(Pack([], U8Strings(bs)), bs);
  }

  /** The header reads back as the magic number, the two dimensions and the maximum value. */
  lemma HeaderRoundTrip(width: nat, height: nat)
    ensures |Header(width, height)| == 3
    ensures Header(width, height)[0] == "P3" && Header(width, height)[2] == "255"
    ensures Split(Header(width, height)[1]) == [Dec(width), Dec(height)]
    ensures ParseDec(Dec(width)) == Some(width) && ParseDec(Dec(height)) == Some(height)
  {
    SplitAppend(Dec(width), Dec(height));
    SplitNoSpace(Dec(width));
    SplitNoSpace(Dec(height));
    ParseDecOfDec(width);
    ParseDecOfDec(height);
  }

  /** The Rust implementation's header test for a 5 x 3 canvas. */
  lemma HeaderExample()
    ensures Header(5, 3) == ["P3", "5 3", "255"]
  {
    assert Dec(5) == [Digit(5)] && Dec(3) == [Digit(3)];
    assert Digit(5) == '5' && Digit(3) == '3';
    assert Dec(5) + " " + Dec(3) == "5 3";
  }

  /** `Ppm`: a file name and the lines of the file built so far. */
  class Ppm {
    var filename: string
    var lines: seq<string>

    /** `Ppm::new`: no lines yet. */
    constructor (filename: string)
      ensures this.filename == filename && lines == []
    {
      this.filename := filename;
      lines := [];
    }

    /** `add_header`: appends the three header lines in order. */
    method AddHeader(width: nat, height: nat)
      modifies this
      ensures filename == old(filename)
      ensures lines == old(lines) + Header(width, height)
    {
      lines := lines + ["P3"];
      lines := lines + [Dec(width) + " " + Dec(height)];
      lines := lines + ["255"];
    }

    /**
     * `add_canvas`: the header, then the pixels the canvas iterator yields,
     * packed greedily into lines. Earlier lines are left as they were.
     */
    method AddCanvas(canvas: Canvas)
      requires canvas.Valid()
      modifies this, canvas
      ensures filename == old(filename)
      ensures lines == old(lines) + Header(old(canvas.width), old(canvas.height))
                       + PackLines(PixelStrings(old(canvas.Remaining())))
      ensures forall i :: |old(lines)| + 3 <= i < |lines| ==> |lines[i]| <= MaxLineLen
      ensures DecodeBody(lines[|old(lines)| + 3..]) == Some(ToBytes(old(canvas.Remaining())))
    {
      AddHeader(canvas.width, canvas.height);
      AddPixels(canvas);
      PixelLines(old(lines) + Header(old(canvas.width), old(canvas.height)), old(canvas.Remaining()));
    }

    /**
     * The body of the loop of `add_canvas` for one pixel: when the pixel's
     * string would take the open line past MaxLineLen, the open line is
     * closed and the running length restarts; then the string goes on the
     * open line. `done` and `rest` are ghost bookkeeping: the closed groups
     * and the pixels still to come.
     */
    static method PlacePixel(ghost done: seq<seq<string>>, body: seq<string>, pixels: seq<string>, linelen: nat,
                        c: Color, ghost rest: seq<Color>, ghost all: seq<string>)
      returns (ghost done': seq<seq<string>>, body': seq<string>, pixels': seq<string>, linelen': nat)
      requires Packed(done, body, pixels, linelen, [c] + rest, all)
      ensures Packed(done', body', pixels', linelen', rest, all)
    {
      var pixelString := PixelString(c);
      PackedStep(done, body, pixels, linelen, c, rest, all);
      done', body', pixels', linelen' := done, body, pixels, linelen;
      if linelen + |pixelString| > MaxLineLen {
        body' := body + [Join(pixels)];
        done' := done + [pixels];
        pixels' := [];
        linelen' := 0;
      }
      linelen' := linelen' + |pixelString| + 1;
      pixels' := pixels' + [pixelString];
    }

    /**
     * The loop of `add_canvas`: every pixel the iterator yields goes on the
     * open line or opens the next, and the open line is closed at the end.
     * The closed lines are collected and appended together; the resulting
     * lines are the same as pushing each one as it is closed.
     */
    method AddPixels(canvas: Canvas)
      requires canvas.Valid()
      modifies this, canvas
      ensures filename == old(filename)
      ensures lines == old(lines) + PackLines(PixelStrings(old(canvas.Remaining())))
    {
      ghost var rest := canvas.Remaining();
      ghost var all := PixelStrings(rest);
      ghost var done: seq<seq<string>> := [];
      var body: seq<string> := [];
      var pixels: seq<string> := [];
      var linelen: nat := 0;
      var pixel := canvas.Next();
      while pixel.Some?
        modifies canvas
        invariant canvas.Valid()
        invariant pixel.Some? ==> rest == [pixel.value] + canvas.Remaining()
        invariant pixel.None? ==> rest == []
        invariant Packed(done, body, pixels, linelen, rest, all)
        decreases |rest|
      {
        done, body, pixels, linelen := PlacePixel(done, body, pixels, linelen, pixel.value, canvas.Remaining(), all);
        rest := canvas.Remaining();
        pixel := canvas.Next();
      }
      PackClose(done, pixels, all);
      lines := lines + (body + [Join(pixels)]);
    }
  }

  /** The Rust implementation's header test: a 5 x 3 canvas written to a new file starts with its header. */
  method AddCanvasExample() returns (lines: seq<string>)
    ensures 3 <= |lines| && lines[..3] == ["P3", "5 3", "255"]
  {
    var canvas := new Canvas(5, 3);
    var p := new Ppm("test");
    p.AddCanvas(canvas);
    HeaderExample();
    lines := p.lines;
  }
}
