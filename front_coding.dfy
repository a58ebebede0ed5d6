/**
 * Front coding of a term list in blocks of k terms.
 *
 * A term is modelled by its UTF-8 bytes. The stream starts with k; each
 * block then holds the length of the longest prefix common to all its terms,
 * the first term (length byte, then its bytes) and, for each further term,
 * the length and bytes of what follows the common prefix. Every length is
 * written through ByteArrayOutputStream.write(int), which keeps the low 8
 * bits only.
 */
module FrontCoding {
  import opened Base

  /** An unsigned byte, as written by write(int) and read by readUnsignedByte. */
  type Byte = b: int | 0 <= b < 256

  type Term = seq<Byte>

  /** write(int): only the low 8 bits of the value reach the stream. */
  function Low8(n: int): (b: Byte)
    ensures 0 <= n < 256 ==> b == n
  {
    n % 256
  }

  function Min(a: int, b: int): int
  {
    if a <= b then a else b
  }

  // ---------------------------------------------------------------- prefixes

  /** Length of the longest common prefix of a and b. */
  function Lcp(a: Term, b: Term): (n: nat)
    ensures n <= |a| && n <= |b| && a[..n] == b[..n]
    ensures n < |a| && n < |b| ==> a[n] != b[n]
  {
    if |a| == 0 || |b| == 0 || a[0] != b[0] then 0
    else
      var n := 1 + Lcp(a[1..], b[1..]);
      assert a[..n] == [a[0]] + a[1..][..n - 1];
      assert b[..n] == [b[0]] + b[1..][..n - 1];
      n
  }

  /** longestCommonPrefix: count the equal leading characters. */
  method LongestCommonPrefix(a: Term, b: Term) returns (i: nat)
    ensures i == Lcp(a, b)
  {
    var len := Min(|a|, |b|);
    i := 0;
    while i < len && a[i] == b[i]
      invariant i <= len && a[..i] == b[..i]
    {
      assert a[..i + 1] == a[..i] + [a[i]] && b[..i + 1] == b[..i] + [b[i]];
      i := i + 1;
    }
    LcpUnique(a, b, i);
  }

  /** Any common prefix length at which a and b part (or one ends) is Lcp(a, b). */
  lemma LcpUnique(a: Term, b: Term, n: nat)
    requires n <= |a| && n <= |b| && a[..n] == b[..n]
    requires n < |a| && n < |b| ==> a[n] != b[n]
    ensures n == Lcp(a, b)
  {
    var m := Lcp(a, b);
    forall i | 0 <= i < n
      ensures a[i] == b[i]
    {
      assert a[..n][i] == b[..n][i];
    }
    forall i | 0 <= i < m
      ensures a[i] == b[i]
    {
      assert a[..m][i] == b[..m][i];
    }
  }

  /**
   * The common prefix length of a block: start from the first term's
   * length and take the minimum with its LCP against every other term.
   */
  function BlockLcp(first: Term, rest: seq<Term>): (n: nat)
    ensures n <= |first|
    ensures forall i :: 0 <= i < |rest| ==> n <= |rest[i]| && rest[i][..n] == first[..n]
  {
    if |rest| == 0 then |first|
    else
      var m := BlockLcp(first, rest[..|rest| - 1]);
      var t := rest[|rest| - 1];
      var n := Min(m, Lcp(first, t));
      assert forall i :: 0 <= i < |rest| - 1 ==> rest[i] == rest[..|rest| - 1][i];
      assert forall i :: 0 <= i < |rest| - 1 ==> rest[i][..n] == rest[i][..m][..n];
      assert t[..n] == t[..Lcp(first, t)][..n];
      n
  }

  /** The block's common prefix cannot be extended: some term ends or differs right after it. */
  lemma {:induction false} BlockLcpMaximal(first: Term, rest: seq<Term>)
    requires BlockLcp(first, rest) < |first|
    ensures exists i :: 0 <= i < |rest| && (BlockLcp(first, rest) == |rest[i]| || rest[i][BlockLcp(first, rest)] != first[BlockLcp(first, rest)])
    decreases |rest|
  {
    var n := BlockLcp(first, rest);
    var m := BlockLcp(first, rest[..|rest| - 1]);
    var t := rest[|rest| - 1];
    if n == Lcp(first, t) {
      assert rest[|rest| - 1] == t;
    } else {
      BlockLcpMaximal(first, rest[..|rest| - 1]);
      var i :| 0 <= i < |rest| - 1 && (m == |rest[..|rest| - 1][i]| || rest[..|rest| - 1][i][m] != first[m]);
      assert rest[..|rest| - 1][i] == rest[i];
    }
  }

  lemma BlockLcpStep(first: Term, rest: seq<Term>, j: nat)
    requires j < |rest|
    ensures BlockLcp(first, rest[..j + 1]) == Min(BlockLcp(first, rest[..j]), Lcp(first, rest[j]))
  {
    assert rest[..j + 1][..j] == rest[..j];
  }

  // ---------------------------------------------------------------- encoding

  /** The suffix records of the terms after the first: length byte, then the bytes past the common prefix. */
  function Suffixes(rest: seq<Term>, lcp: nat): seq<Byte>
    requires forall i :: 0 <= i < |rest| ==> lcp <= |rest[i]|
  {
    if |rest| == 0 then []
    else [Low8(|rest[0]| - lcp)] + rest[0][lcp..] + Suffixes(rest[1..], lcp)
  }

  lemma {:induction false} SuffixesAppend(rest: seq<Term>, t: Term, lcp: nat)
    requires forall i :: 0 <= i < |rest| ==> lcp <= |rest[i]|
    requires lcp <= |t|
    ensures Suffixes(rest + [t], lcp) == Suffixes(rest, lcp) + [Low8(|t| - lcp)] + t[lcp..]
    decreases |rest|
  {
    var s := rest + [t];
    if |rest| == 0 {
      assert s[1..] == [];
    } else {
      assert s[0] == rest[0] && s[1..] == rest[1..] + [t];
      SuffixesAppend(rest[1..], t, lcp);
      var r0 := [Low8(|rest[0]| - lcp)] + rest[0][lcp..];
      assert Suffixes(s, lcp) == r0 + Suffixes(rest[1..] + [t], lcp);
      assert Suffixes(rest, lcp) == r0 + Suffixes(rest[1..], lcp);
    }
  }

  /** One block: LCP byte, first-term length byte, first term, suffix records. */
  function EncodeBlock(block: seq<Term>): seq<Byte>
    requires |block| >= 1
  {
    var first := block[0];
    var lcp := BlockLcp(first, block[1..]);
    [Low8(lcp), Low8(|first|)] + first + Suffixes(block[1..], lcp)
  }

  /** Consecutive blocks of min(k, remaining) terms. */
  function EncodeBlocks(terms: seq<Term>, k: nat): seq<Byte>
    requires k >= 1
    decreases |terms|
  {
    if |terms| == 0 then []
    else
      var b := Min(k, |terms|);
      EncodeBlock(terms[..b]) + EncodeBlocks(terms[b..], k)
  }

  /** The stream compress(terms, k) returns. */
  function Compressed(terms: seq<Term>, k: nat): (out: seq<Byte>)
    requires k >= 1
    ensures |out| >= 1 && out[0] == Low8(k)
    ensures |terms| == 0 ==> out == [Low8(k)]
  {
    [Low8(k)] + EncodeBlocks(terms, k)
  }

  /**
   * compress: write k, then block after block the LCP, the first term and
   * the suffixes of the others. k >= 1 is needed: with k = 0 the index never
   * advances and the loop does not end.
   */
  method Compress(terms: seq<Term>, k: nat) returns (out: seq<Byte>)
    requires k >= 1
    ensures out == Compressed(terms, k)
  {
    out := [Low8(k)];
    var i := 0;
    assert terms[i..] == terms;
    while i < |terms|
      invariant i <= |terms|
      invariant Written(out, terms, i, k)
      decreases |terms| - i
    {
      var blockSize := Min(k, |terms| - i);
      ghost var before := out;
      out := WriteBlock(out, terms[i..i + blockSize]);
      NextBlock(terms, i, k, before, out);
      i := i + blockSize;
    }
    assert terms[i..] == [];
  }

  /** The state of compress before the block at i: out followed by the remaining blocks is the whole stream. */
  ghost predicate Written(out: seq<Byte>, terms: seq<Term>, i: nat, k: nat)
    requires k >= 1 && i <= |terms|
  {
    out + EncodeBlocks(terms[i..], k) == Compressed(terms, k)
  }

  /** Writing the block at i moves the rest of the encoding on to the next block. */
  lemma NextBlock(terms: seq<Term>, i: nat, k: nat, before: seq<Byte>, out: seq<Byte>)
    requires k >= 1 && i < |terms|
    requires Written(before, terms, i, k)
    requires out == before + EncodeBlock(terms[i..i + Min(k, |terms| - i)])
    ensures Written(out, terms, i + Min(k, |terms| - i), k)
  {
    var b := Min(k, |terms| - i);
    var block := EncodeBlock(terms[i..i + b]);
    var later := EncodeBlocks(terms[i + b..], k);
    EncodeBlocksFrom(terms, i, k);
    Associative(before, block, later);
  }

  /** The blocks from i on: the block at i, then the blocks after it. */
  lemma EncodeBlocksFrom(terms: seq<Term>, i: nat, k: nat)
    requires k >= 1 && i < |terms|
    ensures EncodeBlocks(terms[i..], k) == EncodeBlock(terms[i..i + Min(k, |terms| - i)]) + EncodeBlocks(terms[i + Min(k, |terms| - i)..], k)
  {
    var b := Min(k, |terms| - i);
    assert terms[i..][..b] == terms[i..i + b];
    assert terms[i..][b..] == terms[i + b..];
  }

  // A proof step kept in a lemma of its own so that the sequence or set equality stays out of its callers' larger proofs; not a claim about the model.
  lemma Associative<T>(a: seq<T>, b: seq<T>, c: seq<T>)
    ensures a + b + c == a + (b + c)
  {
  }

  /** The block's LCP: the first term's length, lowered by its LCP with each later term. */
  method BlockPrefix(block: seq<Term>) returns (lcp: nat)
    requires |block| >= 1
    ensures lcp == BlockLcp(block[0], block[1..])
  {
    var firstTerm := block[0];
    lcp := |firstTerm|;
    for j := 1 to |block|
      invariant lcp == BlockLcp(firstTerm, block[1..][..j - 1])
    {
      var common := LongestCommonPrefix(firstTerm, block[j]);
      BlockLcpStep(firstTerm, block[1..], j - 1);
      lcp := Min(lcp, common);
    }
    assert block[1..][..|block| - 1] == block[1..];
  }

  /** One iteration of compress: append the encoding of one block. */
  method WriteBlock(out: seq<Byte>, block: seq<Term>) returns (out': seq<Byte>)
    requires |block| >= 1
    ensures out' == out + EncodeBlock(block)
  {
    var firstTerm := block[0];
    var lcp := BlockPrefix(block);
    out' := out + [Low8(lcp)];
    out' := out' + [Low8(|firstTerm|)];
    out' := out' + firstTerm;
    ghost var head := out';
    out' := WriteSuffixes(out', block, lcp);
    BlockWritten(out, block, head, out');
  }

  /** The suffix loop of compress over block[1..]: length byte and bytes past the common prefix of each term. */
  method WriteSuffixes(out: seq<Byte>, block: seq<Term>, lcp: nat) returns (out': seq<Byte>)
    requires |block| >= 1 && lcp == BlockLcp(block[0], block[1..])
    ensures out' == out + Suffixes(block[1..], lcp)
  {
    out' := out;
    ghost var rest := block[1..];
    assert rest[..0] == [];
    for j := 1 to |block|
      invariant SuffixesWritten(out, out', rest, j - 1, lcp)
    {
      var term := block[j];
      var suffix := term[lcp..];
      ghost var before := out';
      out' := out' + [Low8(|suffix|)];
      out' := out' + suffix;
      NextSuffix(out, before, out', rest, j - 1, lcp);
    }
    assert rest[..|block| - 1] == rest;
  }

  /** out followed by the suffix records of the first j terms of rest. */
  ghost predicate SuffixesWritten(out: seq<Byte>, out': seq<Byte>, rest: seq<Term>, j: nat, lcp: nat)
  {
    j <= |rest| && (forall i :: 0 <= i < |rest| ==> lcp <= |rest[i]|) && out' == out + Suffixes(rest[..j], lcp)
  }

  lemma NextSuffix(out: seq<Byte>, before: seq<Byte>, out': seq<Byte>, rest: seq<Term>, j: nat, lcp: nat)
    requires SuffixesWritten(out, before, rest, j, lcp) && j < |rest|
    requires out' == before + [Low8(|rest[j]| - lcp)] + rest[j][lcp..]
    ensures SuffixesWritten(out, out', rest, j + 1, lcp)
  {
    assert rest[..j + 1] == rest[..j] + [rest[j]];
    SuffixesAppend(rest[..j], rest[j], lcp);
  }

  lemma BlockWritten(out: seq<Byte>, block: seq<Term>, head: seq<Byte>, out': seq<Byte>)
    requires |block| >= 1
    requires head == out + [Low8(BlockLcp(block[0], block[1..]))] + [Low8(|block[0]|)] + block[0]
    requires out' == head + Suffixes(block[1..], BlockLcp(block[0], block[1..]))
    ensures out' == out + EncodeBlock(block)
  {
  }

  // ---------------------------------------------------------------- decoding

  /** Why decompress throws: EOFException, or StringIndexOutOfBoundsException from substring(0, lcp). */
  datatype DecodeError = EndOfStream | PrefixOutOfRange

  /** Terms read so far and the stream position after them. */
  datatype Read = Read(terms: seq<Term>, pos: nat)

  /**
   * Reading the suffix records of one block: count records, each a length
   * byte and that many bytes, completed with first[0:lcp]. With stopAtEnd
   * the reading also stops when the stream is exhausted.
   */
  function ReadSuffixes(data: seq<Byte>, pos: nat, first: Term, lcp: nat, count: nat, stopAtEnd: bool)
    : (r: Result<Read, DecodeError>)
    requires pos <= |data|
    ensures r.Success? ==> pos <= r.value.pos <= |data|
    decreases count
  {
    if count == 0 || (stopAtEnd && pos == |data|) then Success(Read([], pos))
    else if pos + 1 > |data| then Failure(EndOfStream)
    else
      var sufLen := data[pos];
      if pos + 1 + sufLen > |data| then Failure(EndOfStream)
      else if lcp > |first| then Failure(PrefixOutOfRange)
      else
        var term := first[..lcp] + data[pos + 1..pos + 1 + sufLen];
        match ReadSuffixes(data, pos + 1 + sufLen, first, lcp, count - 1, stopAtEnd)
        case Failure(e) => Failure(e)
        case Success(rd) => Success(Read([term] + rd.terms, rd.pos))
  }

  /**
   * Reading the blocks from pos on. As written (fixed == false) a block has
   * min(k, available bytes) terms; corrected (fixed == true) it has k terms
   * or as many as the stream still holds.
   */
  function ReadBlocks(data: seq<Byte>, pos: nat, k: nat, fixed: bool): Result<seq<Term>, DecodeError>
    requires pos <= |data|
    decreases |data| - pos
  {
    if pos == |data| then Success([])
    else
      var blockSize := if fixed then k else Min(k, |data| - pos);
      if pos + 2 > |data| then Failure(EndOfStream)
      else
        var lcp := data[pos];
        var firstLen := data[pos + 1];
        if pos + 2 + firstLen > |data| then Failure(EndOfStream)
        else
          var first := data[pos + 2..pos + 2 + firstLen];
          var count := if blockSize >= 1 then blockSize - 1 else 0;
          match ReadSuffixes(data, pos + 2 + firstLen, first, lcp, count, fixed)
          case Failure(e) => Failure(e)
          case Success(rd) =>
            match ReadBlocks(data, rd.pos, k, fixed)
            case Failure(e) => Failure(e)
            case Success(more) => Success([first] + rd.terms + more)
  }

  /** decompress as written: read k, then blocks of min(k, in.available()) terms. */
  function Decompressed(data: seq<Byte>): Result<seq<Term>, DecodeError>
  {
    if |data| == 0 then Failure(EndOfStream) else ReadBlocks(data, 1, data[0], false)
  }

  /** decompress with the suffix loop also stopping at the end of the stream. */
  function DecompressedFixed(data: seq<Byte>): Result<seq<Term>, DecodeError>
  {
    if |data| == 0 then Failure(EndOfStream) else ReadBlocks(data, 1, data[0], true)
  }

  /** Prepending the terms already read to a result. */
  function After(acc: seq<Term>, r: Result<seq<Term>, DecodeError>): Result<seq<Term>, DecodeError>
  {
    match r
    case Failure(e) => Failure(e)
    case Success(ts) => Success(acc + ts)
  }

  lemma AfterNothing(r: Result<seq<Term>, DecodeError>, r': Result<Read, DecodeError>)
    ensures After([], r) == r && AfterRead([], r') == r'
  {
    if r.Success? {
      assert [] + r.value == r.value;
    }
    if r'.Success? {
      assert [] + r'.value.terms == r'.value.terms;
    }
  }

  function AfterRead(acc: seq<Term>, r: Result<Read, DecodeError>): Result<Read, DecodeError>
  {
    match r
    case Failure(e) => Failure(e)
    case Success(rd) => Success(Read(acc + rd.terms, rd.pos))
  }

  /**
   * decompress: a cursor over the stream. Every read past the end is an
   * EOFException and first.substring(0, lcp) with lcp beyond the first term
   * is a StringIndexOutOfBoundsException; both end the decoding.
   */
  method Decompress(data: seq<Byte>) returns (r: Result<seq<Term>, DecodeError>)
    ensures r == Decompressed(data)
  {
    if |data| == 0 {
      return Failure(EndOfStream);
    }
    var k := data[0];
    var pos := 1;
    var result: seq<Term> := [];
    AfterNothing(ReadBlocks(data, pos, k, false), Success(Read([], 0)));
    while pos < |data|
      invariant 1 <= pos <= |data|
      invariant BlocksRead(data, k, result, pos)
      decreases |data| - pos
    {
      var blockSize := Min(k, |data| - pos);
      BlockNext(data, k, result, pos);
      if pos + 2 > |data| {
        return Failure(EndOfStream);
      }
      var lcp := data[pos];
      var firstLen := data[pos + 1];
      if pos + 2 + firstLen > |data| {
        return Failure(EndOfStream);
      }
      var first := data[pos + 2..pos + 2 + firstLen];
      var rd := ReadBlockSuffixes(data, pos + 2 + firstLen, first, lcp, blockSize);
      if rd.Failure? {
        return Failure(rd.error);
      }
      result := result + [first] + rd.value.terms;
      pos := rd.value.pos;
    }
    assert result + [] == result;
    r := Success(result);
  }

  /** The state of decompress between two blocks: the terms so far, then what the rest of the stream decodes to. */
  ghost predicate BlocksRead(data: seq<Byte>, k: Byte, result: seq<Term>, pos: nat)
    requires pos <= |data|
  {
    |data| > 0 && data[0] == k && Decompressed(data) == After(result, ReadBlocks(data, pos, k, false))
  }

  /** The suffix loop of decompress for one block of blockSize terms. */
  method ReadBlockSuffixes(data: seq<Byte>, pos0: nat, first: Term, lcp: Byte, blockSize: int)
    returns (r: Result<Read, DecodeError>)
    requires pos0 <= |data|
    ensures r == ReadSuffixes(data, pos0, first, lcp, if blockSize >= 1 then blockSize - 1 else 0, false)
  {
    ghost var count := if blockSize >= 1 then blockSize - 1 else 0;
    var terms: seq<Term> := [];
    var pos := pos0;
    AfterNothing(Success([]), ReadSuffixes(data, pos0, first, lcp, count, false));
    var j := 1;
    while j < blockSize
      invariant 1 <= j && j - 1 <= count && (blockSize >= 1 ==> count == blockSize - 1)
      invariant pos0 <= pos <= |data|
      invariant SuffixesRead(data, pos0, first, lcp, count, terms, pos, count - (j - 1))
      decreases blockSize - j
    {
      SuffixNext(data, pos0, first, lcp, count, terms, pos, count - (j - 1));
      if pos + 1 > |data| {
        return Failure(EndOfStream);
      }
      var sufLen := data[pos];
      if pos + 1 + sufLen > |data| {
        return Failure(EndOfStream);
      }
      var sufBytes := data[pos + 1..pos + 1 + sufLen];
      if lcp > |first| {
        return Failure(PrefixOutOfRange);
      }
      terms := terms + [first[..lcp] + sufBytes];
      pos := pos + 1 + sufLen;
      j := j + 1;
    }
    assert terms + [] == terms;
    r := Success(Read(terms, pos));
  }

  /** The state of the suffix loop: the terms so far, then `left` more records from pos. */
  ghost predicate SuffixesRead(data: seq<Byte>, pos0: nat, first: Term, lcp: nat, count: nat,
                               terms: seq<Term>, pos: nat, left: nat)
    requires pos0 <= |data| && pos <= |data|
  {
    ReadSuffixes(data, pos0, first, lcp, count, false) == AfterRead(terms, ReadSuffixes(data, pos, first, lcp, left, false))
  }

  lemma AfterReadAfterRead(a: seq<Term>, b: seq<Term>, r: Result<Read, DecodeError>)
    ensures AfterRead(a, AfterRead(b, r)) == AfterRead(a + b, r)
  {
    if r.Success? {
      assert a + (b + r.value.terms) == a + b + r.value.terms;
    }
  }

  lemma AfterAfter(a: seq<Term>, b: seq<Term>, r: Result<seq<Term>, DecodeError>)
    ensures After(a, After(b, r)) == After(a + b, r)
  {
    if r.Success? {
      assert a + (b + r.value) == a + b + r.value;
    }
  }

  /** One record of the suffix loop: either the read fails and so does the whole block, or the state moves on. */
  lemma SuffixNext(data: seq<Byte>, pos0: nat, first: Term, lcp: nat, count: nat,
                   terms: seq<Term>, pos: nat, left: nat)
    requires pos0 <= |data| && pos <= |data| && left > 0
    requires SuffixesRead(data, pos0, first, lcp, count, terms, pos, left)
    ensures pos + 1 > |data| ==> ReadSuffixes(data, pos0, first, lcp, count, false) == Failure(EndOfStream)
    ensures pos + 1 <= |data| && pos + 1 + data[pos] > |data| ==>
              ReadSuffixes(data, pos0, first, lcp, count, false) == Failure(EndOfStream)
    ensures pos + 1 <= |data| && pos + 1 + data[pos] <= |data| && lcp > |first| ==>
              ReadSuffixes(data, pos0, first, lcp, count, false) == Failure(PrefixOutOfRange)
    ensures pos + 1 <= |data| && pos + 1 + data[pos] <= |data| && lcp <= |first| ==>
              SuffixesRead(data, pos0, first, lcp, count, terms + [first[..lcp] + data[pos + 1..pos + 1 + data[pos]]],
                           pos + 1 + data[pos], left - 1)
  {
    if pos + 1 <= |data| && pos + 1 + data[pos] <= |data| && lcp <= |first| {
      var term := first[..lcp] + data[pos + 1..pos + 1 + data[pos]];
      AfterReadAfterRead(terms, [term], ReadSuffixes(data, pos + 1 + data[pos], first, lcp, left - 1, false));
    }
  }

  /** One block of decompress: either a read fails and so does the decoding, or the state moves to the next block. */
  lemma BlockNext(data: seq<Byte>, k: Byte, result: seq<Term>, pos: nat)
    requires pos < |data| && BlocksRead(data, k, result, pos)
    ensures pos + 2 > |data| ==> Decompressed(data) == Failure(EndOfStream)
    ensures pos + 2 <= |data| && pos + 2 + data[pos + 1] > |data| ==> Decompressed(data) == Failure(EndOfStream)
    ensures pos + 2 <= |data| && pos + 2 + data[pos + 1] <= |data| ==>
              var first := data[pos + 2..pos + 2 + data[pos + 1]];
              var blockSize := Min(k, |data| - pos);
              var rd := ReadSuffixes(data, pos + 2 + data[pos + 1], first, data[pos],
                                     if blockSize >= 1 then blockSize - 1 else 0, false);
              (rd.Failure? ==> Decompressed(data) == Failure(rd.error)) &&
              (rd.Success? ==> BlocksRead(data, k, result + [first] + rd.value.terms, rd.value.pos))
  {
    if pos + 2 <= |data| && pos + 2 + data[pos + 1] <= |data| {
      var first := data[pos + 2..pos + 2 + data[pos + 1]];
      var blockSize := Min(k, |data| - pos);
      var rd := ReadSuffixes(data, pos + 2 + data[pos + 1], first, data[pos],
                             if blockSize >= 1 then blockSize - 1 else 0, false);
      if rd.Success? {
        var more := ReadBlocks(data, rd.value.pos, k, false);
        assert ReadBlocks(data, pos, k, false) == After([first] + rd.value.terms, more);
        AfterAfter(result, [first] + rd.value.terms, more);
        assert result + ([first] + rd.value.terms) == result + [first] + rd.value.terms;
      }
    }
  }

  // ---------------------------------------------------------------- round trip

  /** Every term fits a single length byte. */
  ghost predicate Encodable(terms: seq<Term>)
  {
    forall i :: 0 <= i < |terms| ==> |terms[i]| < 256
  }

  /** The bytes s sit in data from pos on. */
  ghost predicate At(data: seq<Byte>, pos: nat, s: seq<Byte>)
    decreases |s|
  {
    pos + |s| <= |data| && (|s| == 0 || (data[pos] == s[0] && At(data, pos + 1, s[1..])))
  }

  lemma {:induction false} AtSplit(data: seq<Byte>, pos: nat, a: seq<Byte>, b: seq<Byte>)
    requires At(data, pos, a + b)
    ensures At(data, pos, a) && At(data, pos + |a|, b)
    decreases |a|
  {
    if |a| > 0 {
      assert (a + b)[0] == a[0] && (a + b)[1..] == a[1..] + b;
      AtSplit(data, pos + 1, a[1..], b);
    } else {
      assert a + b == b;
    }
  }

  // A proof step kept in a lemma of its own so that the sequence or set equality stays out of its callers' larger proofs; not a claim about the model.
  lemma AtByte(data: seq<Byte>, pos: nat, x: Byte)
    requires At(data, pos, [x])
    ensures pos < |data| && data[pos] == x
  {
  }

  /** The bytes at pos, as the slice the reader takes. */
  lemma {:induction false} AtSlice(data: seq<Byte>, pos: nat, s: seq<Byte>)
    requires At(data, pos, s)
    ensures data[pos..pos + |s|] == s
    decreases |s|
  {
    if |s| > 0 {
      AtSlice(data, pos + 1, s[1..]);
      assert data[pos..pos + |s|] == [data[pos]] + data[pos + 1..pos + |s|];
    }
  }

  /** A suffix record takes at least its length byte. */
  lemma {:induction false} SuffixesLength(rest: seq<Term>, lcp: nat)
    requires forall i :: 0 <= i < |rest| ==> lcp <= |rest[i]|
    ensures |Suffixes(rest, lcp)| >= |rest|
    decreases |rest|
  {
    if |rest| > 0 {
      SuffixesLength(rest[1..], lcp);
    }
  }

  /** The terms after the first of a block, as the decoder needs them: each starts with first[..lcp]. */
  ghost predicate SuffixesFit(first: Term, lcp: nat, rest: seq<Term>)
  {
    lcp <= |first| && Encodable(rest) &&
    forall i :: 0 <= i < |rest| ==> lcp <= |rest[i]| && rest[i][..lcp] == first[..lcp]
  }

  /**
   * Reading count suffix records where the records of rest were written:
   * with count == |rest| the terms come back; with more records asked for
   * and the stream ending after them, the as-written loop runs into the end
   * and the corrected one stops there.
   */
  lemma {:induction false} ReadSuffixesOf(data: seq<Byte>, pos: nat, first: Term, lcp: nat, rest: seq<Term>,
                                          count: nat, stopAtEnd: bool) returns (r: Result<Read, DecodeError>)
    requires SuffixesFit(first, lcp, rest)
    requires At(data, pos, Suffixes(rest, lcp))
    requires count >= |rest| && (count > |rest| ==> pos + |Suffixes(rest, lcp)| == |data|)
    ensures r == ReadSuffixes(data, pos, first, lcp, count, stopAtEnd)
    ensures count == |rest| || stopAtEnd ==> r.Success? && r.value.terms == rest && r.value.pos == pos + |Suffixes(rest, lcp)|
    ensures count > |rest| && !stopAtEnd ==> r == Failure(EndOfStream)
    decreases |rest|
  {
    r := ReadSuffixes(data, pos, first, lcp, count, stopAtEnd);
    if |rest| > 0 {
      var t := rest[0];
      var suf := t[lcp..];
      FirstRecord(data, pos, first, lcp, rest);
      var r' := ReadSuffixesOf(data, pos + 1 + |suf|, first, lcp, rest[1..], count - 1, stopAtEnd);
      assert [t] + rest[1..] == rest;
    }
  }

  /** The first suffix record of rest: its length byte, its bytes (which complete the term), then the others. */
  lemma FirstRecord(data: seq<Byte>, pos: nat, first: Term, lcp: nat, rest: seq<Term>)
    requires SuffixesFit(first, lcp, rest) && |rest| > 0
    requires At(data, pos, Suffixes(rest, lcp))
    ensures pos < |data| && data[pos] == |rest[0]| - lcp
    ensures pos + 1 + data[pos] <= |data| && first[..lcp] + data[pos + 1..pos + 1 + data[pos]] == rest[0]
    ensures SuffixesFit(first, lcp, rest[1..]) && At(data, pos + 1 + data[pos], Suffixes(rest[1..], lcp))
    ensures |Suffixes(rest, lcp)| == 1 + data[pos] + |Suffixes(rest[1..], lcp)|
  {
    var t := rest[0];
    var suf := t[lcp..];
    var later := Suffixes(rest[1..], lcp);
    assert Suffixes(rest, lcp) == [Low8(|t| - lcp)] + suf + later;
    AtSplit(data, pos, [Low8(|t| - lcp)] + suf, later);
    AtSplit(data, pos, [Low8(|t| - lcp)], suf);
    AtByte(data, pos, Low8(|t| - lcp));
    AtSlice(data, pos + 1, suf);
    assert first[..lcp] + suf == t by {
      assert t[..lcp] == first[..lcp];
    }
    assert forall i :: 0 <= i < |rest| - 1 ==> rest[1..][i] == rest[i + 1];
  }

  /** A header of two bytes, then f, then the rest, laid out from pos. */
  lemma HeaderAt(data: seq<Byte>, pos: nat, x: Byte, y: Byte, f: seq<Byte>, sufs: seq<Byte>)
    requires At(data, pos, [x] + ([y] + (f + sufs)))
    ensures data[pos] == x && data[pos + 1] == y && pos + 2 + |f| <= |data|
    ensures data[pos + 2..pos + 2 + |f|] == f && At(data, pos + 2 + |f|, sufs)
  {
    AtSplit(data, pos, [x], [y] + (f + sufs));
    AtByte(data, pos, x);
    AtSplit(data, pos + 1, [y], f + sufs);
    AtByte(data, pos + 1, y);
    AtSplit(data, pos + 2, f, sufs);
    AtSlice(data, pos + 2, f);
  }

  /** Where a block was written: its LCP byte, the first term's length and bytes, then the suffix records. */
  lemma BlockFields(data: seq<Byte>, pos: nat, block: seq<Term>, f: Term, lcp: nat, sufs: seq<Byte>)
    requires |block| >= 1 && f == block[0] && |f| < 256
    requires lcp == BlockLcp(f, block[1..]) && sufs == Suffixes(block[1..], lcp)
    requires At(data, pos, EncodeBlock(block))
    ensures data[pos] == lcp && data[pos + 1] == |f| && pos + 2 + |f| <= |data|
    ensures data[pos + 2..pos + 2 + |f|] == f && At(data, pos + 2 + |f|, sufs)
    ensures |EncodeBlock(block)| == 2 + |f| + |sufs|
  {
    assert EncodeBlock(block) == [Low8(lcp)] + ([Low8(|f|)] + (f + sufs));
    HeaderAt(data, pos, Low8(lcp), Low8(|f|), f, sufs);
  }

  /** A block of encodable terms meets what the suffix reader needs. (Kept as a separate step so that its callers' proofs stay small.) */
  lemma BlockFits(block: seq<Term>, f: Term, lcp: nat)
    requires |block| >= 1 && Encodable(block)
    requires f == block[0] && lcp == BlockLcp(f, block[1..])
    ensures SuffixesFit(f, lcp, block[1..])
  {
  }

  /** The first block of an encoding, then the blocks after it. */
  lemma BlocksSplit(data: seq<Byte>, pos: nat, k: nat, ts: seq<Term>, b: nat, e: seq<Byte>, later: seq<Byte>)
    requires k >= 1 && |ts| > 0 && b == Min(k, |ts|)
    requires e == EncodeBlock(ts[..b]) && later == EncodeBlocks(ts[b..], k)
    requires At(data, pos, EncodeBlocks(ts, k))
    ensures At(data, pos, e) && At(data, pos + |e|, later)
    ensures |EncodeBlocks(ts, k)| == |e| + |later|
  {
    AtSplit(data, pos, e, later);
  }

  /**
   * Reading back one block written at pos, when the reader asks for as many
   * suffix records as were written or stops at the end of the stream: it
   * recovers the block and goes on after it.
   */
  lemma BlockRead(data: seq<Byte>, pos: nat, k: nat, fixed: bool, block: seq<Term>, blockSize: int) returns (end: nat)
    requires |block| >= 1 && Encodable(block)
    requires At(data, pos, EncodeBlock(block))
    requires blockSize == (if fixed then k else Min(k, |data| - pos)) && blockSize >= |block|
    requires fixed || blockSize == |block|
    requires blockSize > |block| ==> pos + |EncodeBlock(block)| == |data|
    ensures end == pos + |EncodeBlock(block)| && end <= |data|
    ensures ReadBlocks(data, pos, k, fixed) == After(block, ReadBlocks(data, end, k, fixed))
  {
    var f := block[0];
    var rest := block[1..];
    var lcp := BlockLcp(f, rest);
    BlockFields(data, pos, block, f, lcp, Suffixes(rest, lcp));
    BlockFits(block, f, lcp);
    end := pos + |EncodeBlock(block)|;
    assert [f] + rest == block;
    ReadBlocksHeader(data, pos, k, fixed, f, lcp, blockSize, rest, block, end);
  }

  /** The reader as written, asking for more suffix records than the final block holds, runs into the end of the stream. */
  lemma BlockReadPastEnd(data: seq<Byte>, pos: nat, k: nat, block: seq<Term>)
    requires |block| >= 1 && Encodable(block)
    requires At(data, pos, EncodeBlock(block)) && pos + |EncodeBlock(block)| == |data|
    requires Min(k, |data| - pos) > |block|
    ensures ReadBlocks(data, pos, k, false) == Failure(EndOfStream)
  {
    var f := block[0];
    var rest := block[1..];
    var lcp := BlockLcp(f, rest);
    BlockFields(data, pos, block, f, lcp, Suffixes(rest, lcp));
    BlockFits(block, f, lcp);
    var blockSize := Min(k, |data| - pos);
    assert [f] + rest == block;
    ReadBlocksHeader(data, pos, k, false, f, lcp, blockSize, rest, block, |data|);
  }

  /**
   * The reader at a block whose header holds lcp and the first term f, with
   * the suffix records of rest after it: it reads the block and goes on
   * after it, or runs into the end of the stream when it asks for more.
   */
  lemma ReadBlocksHeader(data: seq<Byte>, pos: nat, k: nat, fixed: bool, f: Term, lcp: nat, blockSize: int,
                         rest: seq<Term>, block: seq<Term>, end: nat)
    requires pos + 2 + |f| <= |data| && data[pos] == lcp && data[pos + 1] == |f| && data[pos + 2..pos + 2 + |f|] == f
    requires blockSize == (if fixed then k else Min(k, |data| - pos)) && blockSize >= 1
    requires SuffixesFit(f, lcp, rest) && At(data, pos + 2 + |f|, Suffixes(rest, lcp))
    requires blockSize - 1 >= |rest| && (blockSize - 1 > |rest| ==> pos + 2 + |f| + |Suffixes(rest, lcp)| == |data|)
    requires block == [f] + rest && end == pos + 2 + |f| + |Suffixes(rest, lcp)|
    ensures blockSize - 1 == |rest| || fixed ==>
      end <= |data| && ReadBlocks(data, pos, k, fixed) == After(block, ReadBlocks(data, end, k, fixed))
    ensures blockSize - 1 > |rest| && !fixed ==> ReadBlocks(data, pos, k, fixed) == Failure(EndOfStream)
  {
    var res := ReadSuffixesOf(data, pos + 2 + |f|, f, lcp, rest, blockSize - 1, fixed);
    ReadBlocksAt(data, pos, k, fixed, f, lcp, blockSize, res, block, end);
  }

  /** The reader at a block whose header holds lcp and the first term f, given what reading its suffix records gives. (Kept as a separate step so that its callers' proofs stay small.) */
  lemma ReadBlocksAt(data: seq<Byte>, pos: nat, k: nat, fixed: bool, f: Term, lcp: nat, blockSize: int,
                     res: Result<Read, DecodeError>, block: seq<Term>, end: nat)
    requires pos + 2 + |f| <= |data| && data[pos] == lcp && data[pos + 1] == |f| && data[pos + 2..pos + 2 + |f|] == f
    requires blockSize == (if fixed then k else Min(k, |data| - pos)) && blockSize >= 1
    requires res == ReadSuffixes(data, pos + 2 + |f|, f, lcp, blockSize - 1, fixed)
    requires res.Success? ==> [f] + res.value.terms == block && res.value.pos == end
    ensures res.Failure? ==> ReadBlocks(data, pos, k, fixed) == Failure(res.error)
    ensures res.Success? ==> end <= |data| && ReadBlocks(data, pos, k, fixed) == After(block, ReadBlocks(data, end, k, fixed))
  {
  }

  /** The encoding of the encodable terms ts sits in data from pos to the end. */
  ghost predicate BlocksEnd(data: seq<Byte>, pos: nat, k: nat, ts: seq<Term>)
    requires k >= 1
  {
    Encodable(ts) && At(data, pos, EncodeBlocks(ts, k)) && pos + |EncodeBlocks(ts, k)| == |data|
  }

  /** The corrected reader decodes the blocks of ts when they end the stream. */
  lemma {:induction false} ReadBlocksFixed(data: seq<Byte>, pos: nat, k: nat, ts: seq<Term>)
    requires 1 <= k < 256 && BlocksEnd(data, pos, k, ts)
    ensures ReadBlocks(data, pos, k, true) == Success(ts)
    decreases |ts|
  {
    if |ts| > 0 {
      var b := Min(k, |ts|);
      var block, next := FirstBlockOf(data, pos, k, ts);
      var end := BlockRead(data, pos, k, true, block, k);
      ReadBlocksFixed(data, end, k, next);
      AfterSuccess(block, next, ts, ReadBlocks(data, pos, k, true), ReadBlocks(data, end, k, true));
    }
  }

  /** The reader as written decodes n full blocks of k terms that end the stream. */
  lemma {:induction false} ReadBlocksAsWritten(data: seq<Byte>, pos: nat, k: nat, ts: seq<Term>, n: nat)
    requires 1 <= k < 256 && BlocksEnd(data, pos, k, ts)
    requires |ts| == Times(n, k)
    ensures ReadBlocks(data, pos, k, false) == Success(ts)
    decreases |ts|
  {
    if n == 0 {
      assert ts == [] && pos == |data|;
    } else {
      var block, next, end := FullBlock(data, pos, k, ts, n, 0);
      ReadBlocksAsWritten(data, end, k, next, n - 1);
      FullBlockRead(data, pos, k, block, end);
      AfterSuccess(block, next, ts, ReadBlocks(data, pos, k, false), ReadBlocks(data, end, k, false));
    }
  }

  /**
   * The reader as written, on n full blocks of k terms and then r terms
   * with 0 < r < k, ending the stream: the short final block makes it fail
   * with EndOfStream.
   */
  lemma {:induction false} ShortTailFails(data: seq<Byte>, pos: nat, k: nat, ts: seq<Term>, n: nat, r: nat)
    requires 1 <= k < 256 && BlocksEnd(data, pos, k, ts)
    requires 0 < r < k && |ts| == Times(n, k) + r
    ensures ReadBlocks(data, pos, k, false) == Failure(EndOfStream)
    decreases |ts|
  {
    if n == 0 {
      ShortBlockFails(data, pos, k, ts);
    } else {
      var block, next, end := FullBlock(data, pos, k, ts, n, r);
      ShortTailFails(data, end, k, next, n - 1, r);
      FullBlockRead(data, pos, k, block, end);
      AfterSuccess(block, next, ts, ReadBlocks(data, pos, k, false), ReadBlocks(data, end, k, false));
    }
  }

  /** The first of n > 0 full blocks of k terms, and the terms after it. */
  lemma FullBlock(data: seq<Byte>, pos: nat, k: nat, ts: seq<Term>, n: nat, r: nat)
    returns (block: seq<Term>, next: seq<Term>, end: nat)
    requires 1 <= k < 256 && BlocksEnd(data, pos, k, ts)
    requires n > 0 && |ts| == Times(n, k) + r
    ensures block + next == ts && |next| == Times(n - 1, k) + r && BlocksEnd(data, end, k, next)
    ensures |block| == k && Encodable(block) && At(data, pos, EncodeBlock(block)) && end == pos + |EncodeBlock(block)|
  {
    block, next := FirstBlockOf(data, pos, k, ts);
    end := pos + |EncodeBlock(block)|;
  }

  /** A full block of k terms, read back by the reader as written. */
  lemma FullBlockRead(data: seq<Byte>, pos: nat, k: nat, block: seq<Term>, end: nat)
    requires 1 <= k < 256 && |block| == k && Encodable(block)
    requires At(data, pos, EncodeBlock(block)) && end == pos + |EncodeBlock(block)|
    ensures end <= |data| && ReadBlocks(data, pos, k, false) == After(block, ReadBlocks(data, end, k, false))
  {
    BlockLength(block);
    var e := BlockRead(data, pos, k, false, block, k);
  }

  /** A final block of fewer than k terms: the reader as written asks for more records than are left. */
  lemma ShortBlockFails(data: seq<Byte>, pos: nat, k: nat, ts: seq<Term>)
    requires 1 <= k < 256 && BlocksEnd(data, pos, k, ts) && 0 < |ts| < k
    ensures ReadBlocks(data, pos, k, false) == Failure(EndOfStream)
  {
    var block, next := FirstBlockOf(data, pos, k, ts);
    assert next == [] && block == ts;
    BlockReadPastEnd(data, pos, k, block);
  }

  /** The first block of ts and the terms after it, with where each is written. */
  lemma FirstBlockOf(data: seq<Byte>, pos: nat, k: nat, ts: seq<Term>) returns (block: seq<Term>, next: seq<Term>)
    requires 1 <= k && BlocksEnd(data, pos, k, ts) && |ts| > 0
    ensures block == ts[..Min(k, |ts|)] && next == ts[Min(k, |ts|)..] && block + next == ts
    ensures |block| >= 1 && Encodable(block)
    ensures At(data, pos, EncodeBlock(block)) && |EncodeBlock(block)| >= |block| + 1
    ensures BlocksEnd(data, pos + |EncodeBlock(block)|, k, next)
  {
    var b := Min(k, |ts|);
    block := ts[..b];
    next := ts[b..];
    assert Encodable(block) && Encodable(next) by {
      assert forall i :: 0 <= i < b ==> block[i] == ts[i];
      assert forall i :: 0 <= i < |next| ==> next[i] == ts[b + i];
    }
    BlocksSplit(data, pos, k, ts, b, EncodeBlock(block), EncodeBlocks(next, k));
    BlockLength(block);
    TakeDrop(ts, b);
  }

  /** A block takes more bytes than it has terms. */
  lemma BlockLength(block: seq<Term>)
    requires |block| >= 1
    ensures |EncodeBlock(block)| >= |block| + 1
  {
    SuffixesLength(block[1..], BlockLcp(block[0], block[1..]));
  }

  /** n * k, by repeated addition. */
  function Times(n: nat, k: nat): (m: nat)
    ensures n >= 1 ==> m >= k
  {
    if n == 0 then 0 else Times(n - 1, k) + k
  }

  lemma {:induction false} TimesMul(n: nat, k: nat)
    ensures Times(n, k) == n * k
  {
    if n > 0 {
      TimesMul(n - 1, k);
      assert n * k == (n - 1) * k + k;
    }
  }

  /** m terms make m / k full blocks of k terms and m % k terms left over. */
  lemma Blocks(m: nat, k: nat) returns (n: nat, r: nat)
    requires k >= 1
    ensures m == Times(n, k) + r && r < k && r == m % k
  {
    n := m / k;
    r := m % k;
    TimesMul(n, k);
  }

  // A proof step kept in a lemma of its own so that the sequence or set equality stays out of its callers' larger proofs; not a claim about the model.
  lemma AfterSuccess(block: seq<Term>, next: seq<Term>, ts: seq<Term>, x: Result<seq<Term>, DecodeError>,
                     y: Result<seq<Term>, DecodeError>)
    requires x == After(block, y) && block + next == ts
    ensures y == Success(next) ==> x == Success(ts)
    ensures y.Failure? ==> x == Failure(y.error)
  {
  }

  /** A sequence appended to p sits in the result right after p. */
  lemma {:induction false} AtEnd(p: seq<Byte>, s: seq<Byte>)
    ensures At(p + s, |p|, s)
    decreases |s|
  {
    if |s| > 0 {
      assert (p + s)[|p|] == s[0];
      assert p + s == (p + [s[0]]) + s[1..];
      AtEnd(p + [s[0]], s[1..]);
    }
  }

  /** The stream compress(terms, k) writes: k, then the blocks, which end the stream. */
  lemma StreamLayout(terms: seq<Term>, k: nat)
    requires 1 <= k < 256 && Encodable(terms)
    ensures Compressed(terms, k)[0] == k && BlocksEnd(Compressed(terms, k), 1, k, terms)
  {
    AtEnd([Low8(k)], EncodeBlocks(terms, k));
  }

  /**
   * Round trip of the code as written: when the number of terms is a
   * multiple of k, decompress(compress(terms, k)) gives the terms back.
   */
  lemma RoundTrip(terms: seq<Term>, k: nat)
    requires 1 <= k < 256 && Encodable(terms) && |terms| % k == 0
    ensures Decompressed(Compressed(terms, k)) == Success(terms)
  {
    StreamLayout(terms, k);
    var n, r := Blocks(|terms|, k);
    ReadBlocksAsWritten(Compressed(terms, k), 1, k, terms, n);
  }

  /**
   * The code as written fails on every list whose last block is short:
   * decompress(compress(terms, k)) runs into the end of the stream.
   */
  lemma ShortFinalBlockFails(terms: seq<Term>, k: nat)
    requires 1 <= k < 256 && Encodable(terms) && |terms| % k != 0
    ensures Decompressed(Compressed(terms, k)) == Failure(EndOfStream)
  {
    StreamLayout(terms, k);
    var n, r := Blocks(|terms|, k);
    ShortTailFails(Compressed(terms, k), 1, k, terms, n, r);
  }

  /** With the suffix loop stopping at the end of the stream every list comes back. */
  lemma RoundTripFixed(terms: seq<Term>, k: nat)
    requires 1 <= k < 256 && Encodable(terms)
    ensures DecompressedFixed(Compressed(terms, k)) == Success(terms)
  {
    StreamLayout(terms, k);
    ReadBlocksFixed(Compressed(terms, k), 1, k, terms);
  }

  /** One term "a" with k = 2: the stream is 2, 1, 1, 'a' and the last block asks for a second term. */
  lemma OneTermExample()
    ensures Compressed([[97]], 2) == [2, 1, 1, 97]
    ensures Decompressed([2, 1, 1, 97]) == Failure(EndOfStream)
    ensures DecompressedFixed([2, 1, 1, 97]) == Success([[97]])
  {
    var ts: seq<Term> := [[97]];
    assert ts[..1] == ts && ts[1..] == [];
    assert EncodeBlock(ts) == [1, 1, 97];
    ShortFinalBlockFails(ts, 2);
    RoundTripFixed(ts, 2);
  }
}
