/** The compressor against the decompressor, and the raw-stream entry point with its lookahead word. */
module UltraCodec {
  import opened BitStrings
  import opened ErrorCodes
  import opened BitIO
  import opened Tables
  import opened TreeCode
  import opened UltraFormat
  import opened Checksum
  import opened Window
  import opened UltraDecoder
  import opened UltraEncoder
  import opened BlockSplits
  import opened LzCodes
  import opened RansFormat
  import opened RansDecompressor

  /**
    * Decompressing the compressor's output with the same master behind any older window, and with at least one
    * word following it, reports exactly the data and its checksum, strictly or not.
    */
  lemma RoundTrip(out: seq<byte>, used: nat, pre: seq<byte>, master: seq<byte>, data: seq<byte>, rest: seq<byte>,
                  limit: nat, strict: bool, ret: int, back: seq<byte>, csum: bv32, u: nat)
    requires Encodes(out, used, master, data) && |rest| >= 2 && |data| <= limit
    requires Reports(Decode(WordBits(out + rest), 0, DefaultLengths(), pre + master, strict), |pre + master|, limit, strict,
                     ret, back, csum, u)
    ensures ret == |data| && back == data && csum == Checked(data)
    ensures strict ==> u == used && |out| == 2 * ((u + 15) / 16)
  {
    hide *;
    EncodesAt(out, used, pre, master, data, rest, strict);
    ReportsBack(Decoded(pre + master + data, used), pre + master, data, limit, strict, ret, back, csum, u);
  }

  lemma EncodesAt(out: seq<byte>, used: nat, pre: seq<byte>, master: seq<byte>, data: seq<byte>, rest: seq<byte>, strict: bool)
    requires Encodes(out, used, master, data) && |rest| >= 2
    ensures Lengths(DefaultLengths()) && |out| == 2 * ((used + 15) / 16)
    ensures Decode(WordBits(out + rest), 0, DefaultLengths(), pre + master, strict) == Decoded(pre + master + data, used)
  {
    hide Lengths, DefaultLengths, Decode, WordBits;
  }

  lemma ReportsBack(d: Decoding, window: seq<byte>, data: seq<byte>, limit: nat, strict: bool, ret: int, back: seq<byte>, csum: bv32, u: nat)
    requires d.Decoded? && d.hist == window + data && |data| <= limit && Reports(d, |window|, limit, strict, ret, back, csum, u)
    ensures ret == |data| && back == data && csum == Checked(data) && (strict ==> u == d.used)
  {
    hide Fold, Low16;
    assert (window + data)[|window|..|window| + |data|] == data;
  }

  /**
    * Compresses an input and decompresses the result, with a lookahead word behind it. Without a code for some block of
    * a split of the input there is no result; easy inputs always come back.
    */
  method CompressThenDecompress(level: nat, master: seq<byte>, input: seq<byte>, limit: nat, strict: bool)
    returns (r: Compression, ret: int, back: seq<byte>, csum: bv32, ghost blocks: seq<Block>, ghost stuck: seq<Token>)
    requires |master| < WINDOW && |input| <= limit && level < 6
    ensures r.Compressed? ==> ret == |input| && back == input && csum == r.csum == Checked(input) && Split(false, blocks, master, input)
    ensures !r.Compressed? ==> r == NoCode && StuckSplit(false, blocks, stuck, master, input)
    ensures Easy(false, input) ==> r.Compressed?
  {
    hide Encodes, Reports, Decode, Split, StuckSplit, Easy, Lengths, DefaultLengths, Fold, Low16, WordBits;
    var src := new ByteSource(input);
    ghost var used;
    r, used, blocks, stuck := CompressEx(level, master, src, |input|);
    ret, back, csum := 0, [], 0;
    assert input[0..|input|] == input;
    if r.Compressed? {
      var packed := new ByteSource(r.out + [0, 0]);
      var u;
      ret, back, csum, u := DecompressorUltra(packed, master, limit, strict);
      assert [] + master == master;
      RoundTrip(r.out, used, [], master, input, [0, 0], limit, strict, ret, back, csum, u);
    }
  }

  /** The same for the rANS levels: any limit that leaves room gives back the data, whatever follows the stream. */
  lemma RansRoundTrip(out: seq<byte>, used: nat, pre: seq<byte>, master: seq<byte>, data: seq<byte>, rest: seq<byte>,
                      limit: nat, ret: int, back: seq<byte>, csum: bv32)
    requires RansEncodes(out, used, master, data) && |data| <= limit
    requires RansReports(RansDecode(WordBits(out + rest), 0, pre + master, |pre + master| + limit), |pre + master|, ret, back, csum)
    ensures ret == |data| && back == data && csum == Checked(data)
  {
    hide Fold, Low16, WordBits, RansDecode;
    var d := RansDecode(WordBits(out + rest), 0, pre + master, |pre + master| + limit);
    assert d == Decoded(pre + master + data, used);
    assert (pre + master + data)[|pre + master|..] == data;
  }

  method CompressThenDecompressRans(level: nat, master: seq<byte>, input: seq<byte>, limit: nat)
    returns (r: Compression, ret: int, back: seq<byte>, csum: bv32, ghost blocks: seq<Block>, ghost stuck: seq<Token>)
    requires |master| < WINDOW && |input| <= limit && level >= 6
    ensures r.Compressed? ==> ret == |input| && back == input && csum == r.csum == Checked(input) && Split(true, blocks, master, input)
    ensures !r.Compressed? ==> r == NoCode && StuckSplit(true, blocks, stuck, master, input)
    ensures Easy(true, input) ==> r.Compressed?
  {
    hide RansEncodes, RansReports, RansDecode, Split, StuckSplit, Easy, Fold, Low16, WordBits;
    var src := new ByteSource(input);
    ghost var used;
    r, used, blocks, stuck := CompressEx(level, master, src, |input|);
    ret, back, csum := 0, [], 0;
    assert input[0..|input|] == input;
    if r.Compressed? {
      var packed := new ByteSource(r.out);
      ret, back, csum := DecompressorRans(packed, master, limit);
      assert [] + master == master && r.out + [] == r.out;
      RansRoundTrip(r.out, used, [], master, input, [], limit, ret, back, csum);
    }
  }

  /** Texts that do not come back, at any level: no block of theirs has a code, whatever matches are tried. */
  method CompressHardText(level: nat) returns (r: Compression)
    ensures r == NoCode
  {
    hide Means, Split, StuckSplit, HardText, Fold, Low16;
    var text := HardText(level >= 6);
    var src := new ByteSource(text);
    ghost var used, blocks, stuck;
    r, used, blocks, stuck := CompressEx(level, [], src, |text|);
    assert text[0..|text|] == text;
    HardNotSplit(level >= 6, blocks);
  }

  // ----- raw streams -----

  const INT_MAX := 0x7fff_ffff
  const UINT_MAX := 0xffff_ffff

  function NoMaster(): (m: seq<byte>)
    ensures |m| == 512
  {
    seq(512, _ => 0)
  }

  /**
    * Decompresses a raw stream of known size: one zero word is supplied as lookahead, bits taken from it are an error,
    * and the stream must end exactly where the given size does.
    */
  method DecompressRaw(stream: seq<byte>, offset: nat, limit: nat) returns (result: int, out: seq<byte>)
    requires |stream| <= UINT_MAX
    ensures if limit == 0 || limit > INT_MAX || |stream| == 0 || |stream| % 2 == 1 || |stream| > UINT_MAX - offset
            then result == BAD_STATE else RawResult(stream, limit, result, out)
  {
    hide Reports, Decode, Lengths, DefaultLengths, Fold, Low16, WordBits;
    out := [];
    if limit == 0 || limit > INT_MAX || |stream| == 0 || |stream| % 2 == 1 || |stream| > UINT_MAX - offset {
      return BAD_STATE, out;
    }
    var source := new ByteSource(stream + [0, 0]);
    var csum, used;
    result, out, csum, used := DecompressorUltra(source, NoMaster(), limit, true);
    ghost var ret := result;
    if result >= 0 && used > |stream| * 8 {
      result := TRUNCATED;
    }
    if result >= 0 && (used + 15) / 16 * 2 != |stream| {
      result := DAMAGED;
    }
    ghost var t := WordBits(stream + [0, 0]);
    KeepsMaster(t);
    ReportedOutcome(stream, limit, ret, result, out, csum, used, Decode(t, 0, DefaultLengths(), NoMaster(), true));
    RawIs(stream, limit, result, out);
  }

  /** The stream decodes, within its own bits, to at most limit bytes, and fills the given size. */
  ghost predicate RawDecodes(stream: seq<byte>, limit: nat, d: Decoding)
  {
    d.Decoded? && |d.hist| - 512 <= limit && d.used <= |stream| * 8 && (d.used + 15) / 16 * 2 == |stream|
  }

  ghost predicate RawOutcome(stream: seq<byte>, limit: nat, result: int, out: seq<byte>, d: Decoding)
  {
    && (result >= 0 <==> RawDecodes(stream, limit, d))
    && (result >= 0 ==> NoMaster() + out == d.hist && result == |out|)
  }

  ghost predicate RawResult(stream: seq<byte>, limit: nat, result: int, out: seq<byte>)
  {
    && Lengths(DefaultLengths())
    && RawOutcome(stream, limit, result, out, Decode(WordBits(stream + [0, 0]), 0, DefaultLengths(), NoMaster(), true))
  }

  lemma RawIs(stream: seq<byte>, limit: nat, result: int, out: seq<byte>)
    requires Lengths(DefaultLengths())
    requires RawOutcome(stream, limit, result, out, Decode(WordBits(stream + [0, 0]), 0, DefaultLengths(), NoMaster(), true))
    ensures RawResult(stream, limit, result, out)
  {
    hide Lengths, DefaultLengths, Decode, RawOutcome, WordBits;
  }

  lemma ReportedOutcome(stream: seq<byte>, limit: nat, ret: int, result: int, out: seq<byte>, csum: bv32, used: nat, d: Decoding)
    requires Reports(d, 512, limit, true, ret, out, csum, used)
    requires d.Decoded? ==> 512 <= |d.hist| && NoMaster() + d.hist[512..] == d.hist
    requires result == if ret >= 0 && used > |stream| * 8 then TRUNCATED
                       else if ret >= 0 && (used + 15) / 16 * 2 != |stream| then DAMAGED else ret
    ensures RawOutcome(stream, limit, result, out, d)
  {
    hide Fold, Low16;
  }

  lemma KeepsMaster(t: seq<bool>)
    requires Lengths(DefaultLengths())
    ensures var d := Decode(t, 0, DefaultLengths(), NoMaster(), true);
            d.Decoded? ==> 512 <= |d.hist| && NoMaster() + d.hist[512..] == d.hist
  {
    hide Decode, DefaultLengths, Lengths, NoMaster;
    var d := Decode(t, 0, DefaultLengths(), NoMaster(), true);
    assert d.Decoded? ==> NoMaster() <= d.hist;
  }

  /** What the compressor wrote without a master is a raw stream of its own size that decodes to the data. */
  lemma RawRoundTrip(stream: seq<byte>, used: nat, data: seq<byte>, limit: nat, result: int, out: seq<byte>)
    requires Encodes(stream, used, [], data) && |data| <= limit && RawResult(stream, limit, result, out)
    ensures result == |data| && out == data
  {
    hide *;
    EncodesAt(stream, used, NoMaster(), [], data, [0, 0], true);
    assert NoMaster() + [] == NoMaster();
    RawResultIs(stream, limit, result, out);
    RawBack(stream, used, NoMaster(), data, limit, result, out);
  }

  lemma RawResultIs(stream: seq<byte>, limit: nat, result: int, out: seq<byte>)
    requires RawResult(stream, limit, result, out)
    ensures Lengths(DefaultLengths())
    ensures RawOutcome(stream, limit, result, out, Decode(WordBits(stream + [0, 0]), 0, DefaultLengths(), NoMaster(), true))
  {
    hide Lengths, DefaultLengths, Decode, WordBits, RawOutcome;
  }

  lemma RawBack(stream: seq<byte>, used: nat, window: seq<byte>, data: seq<byte>, limit: nat, result: int, out: seq<byte>)
    requires window == NoMaster() && |data| <= limit && |stream| == 2 * ((used + 15) / 16)
    requires RawOutcome(stream, limit, result, out, Decoded(window + data, used))
    ensures result == |data| && out == data
  {
    hide NoMaster;
    assert |window| == 512;
    if result >= 0 {
      assert (window + data)[512..] == data && (window + out)[512..] == out;
    }
  }
}
