/** The reply of `git cat-file --batch`: for each blob asked for a header line, the blob and a
    newline, all in one byte string. */
module BatchStream {
  import opened Wrappers
  import opened Bytes

  const NEWLINE: byte := 10
  const SPACE: byte := 32
  const BLOB: seq<byte> := [98, 108, 111, 98]

  // ---- Words and numbers, as Python reads them ----

  /** ASCII characters `str.split` splits at. */
  predicate IsSpace(b: byte) {
    9 <= b <= 13 || 28 <= b <= 32
  }

  predicate Ascii(line: seq<byte>) {
    forall b <- line :: b < 128
  }

  predicate IsWord(word: seq<byte>) {
    word != [] && Ascii(word) && forall b <- word :: !IsSpace(b)
  }

  function WordLength(line: seq<byte>): (n: nat)
    ensures n <= |line|
    ensures forall i :: 0 <= i < n ==> !IsSpace(line[i])
    ensures n < |line| ==> IsSpace(line[n])
  {
    if line == [] || IsSpace(line[0]) then 0 else 1 + WordLength(line[1..])
  }

  function Split(line: seq<byte>): seq<seq<byte>>
    decreases |line|
  {
    if line == [] then []
    else if IsSpace(line[0]) then Split(line[1..])
    else
      var n := WordLength(line);
      [line[..n]] + Split(line[n..])
  }

  predicate IsDigit(b: byte) {
    48 <= b <= 57
  }

  /** Digits with single underscores between them. */
  function Number(word: seq<byte>): Option<nat>
    decreases |word|
  {
    if word == [] || !IsDigit(word[|word| - 1]) then None
    else
      var digit := word[|word| - 1] - 48;
      var before := word[..|word| - 1];
      if before == [] then Some(digit)
      else
        var more := if before[|before| - 1] == 95 then before[..|before| - 1] else before;
        match Number(more)
        case None => None
        case Some(n) => Some(10 * n + digit)
  }

  function Signed(sign: int, number: Option<nat>): Option<int> {
    match number
    case None => None
    case Some(n) => Some(sign * n)
  }

  /** `int(word)`: a sign may come first. */
  function IntOf(word: seq<byte>): Option<int> {
    if word != [] && word[0] == 43 then Signed(1, Number(word[1..]))
    else if word != [] && word[0] == 45 then Signed(-1, Number(word[1..]))
    else Signed(1, Number(word))
  }

  function Decimal(n: nat): (word: seq<byte>)
    ensures word != [] && forall b <- word :: IsDigit(b)
  {
    if n < 10 then [48 + n] else Decimal(n / 10) + [48 + n % 10]
  }

  lemma {:induction false} DecimalReadsBack(n: nat)
    ensures Number(Decimal(n)) == Some(n)
    ensures IntOf(Decimal(n)) == Some(n)
  {
    if n < 10 {
    } else {
      DecimalReadsBack(n / 10);
      assert Decimal(n)[..|Decimal(n)| - 1] == Decimal(n / 10);
    }
    assert Decimal(n)[0] in Decimal(n);
  }

  /** A digit first and last, and single underscores between digits. */
  predicate IsNumeral(word: seq<byte>) {
    && word != [] && IsDigit(word[0]) && IsDigit(word[|word| - 1])
    && (forall i :: 0 <= i < |word| ==> IsDigit(word[i]) || word[i] == 95)
    && forall i :: 0 < i < |word| ==> IsDigit(word[i - 1]) || IsDigit(word[i])
  }

  lemma NumeralShorter(word: seq<byte>, n: nat)
    requires 0 < n < |word| && IsDigit(word[n - 1]) && (n == |word| - 1 || (n == |word| - 2 && word[n] == 95))
    requires IsDigit(word[|word| - 1])
    ensures IsNumeral(word) <==> IsNumeral(word[..n])
  {
    var fewer := word[..n];
    assert forall i :: 0 <= i < n ==> fewer[i] == word[i];
  }

  lemma {:induction false} NumberExactly(word: seq<byte>)
    ensures Number(word).Some? <==> IsNumeral(word)
    decreases |word|
  {
    if word != [] && IsDigit(word[|word| - 1]) && |word| > 1 {
      var before := word[..|word| - 1];
      if before[|before| - 1] == 95 {
        var more := before[..|before| - 1];
        NumberExactly(more);
        if more != [] && IsDigit(more[|more| - 1]) {
          assert more == word[..|word| - 2];
          NumeralShorter(word, |word| - 2);
        }
      } else {
        NumberExactly(before);
        if IsDigit(before[|before| - 1]) {
          NumeralShorter(word, |word| - 1);
        }
      }
    }
  }

  /** What is an integer: a numeral, after a sign or without one. */
  lemma IntegersExactly(word: seq<byte>)
    ensures IntOf(word).Some?
       <==> IsNumeral(if word != [] && (word[0] == 43 || word[0] == 45) then word[1..] else word)
  {
    NumberExactly(word);
    if word != [] {
      NumberExactly(word[1..]);
    }
  }

  lemma NumberNext(more: seq<byte>, underscore: seq<byte>, last: byte)
    requires more != [] && more[|more| - 1] != 95 && IsDigit(last) && (underscore == [] || underscore == [95])
    ensures Number(more + underscore + [last])
         == match Number(more) case None => None case Some(n) => Some(10 * n + (last - 48))
  {
    var word := more + underscore + [last];
    var before := word[..|word| - 1];
    assert before == more + underscore;
    assert underscore == [95] ==> before[..|before| - 1] == more;
    assert underscore == [] ==> before == more;
  }

  lemma LastDigit(b: seq<byte>) returns (more: seq<byte>, underscore: seq<byte>, last: byte)
    requires IsNumeral(b) && |b| > 1
    ensures b == more + underscore + [last] && IsNumeral(more) && more[|more| - 1] != 95
    ensures IsDigit(last) && (underscore == [] || underscore == [95])
  {
    last := b[|b| - 1];
    var n := if b[|b| - 2] == 95 then |b| - 2 else |b| - 1;
    more, underscore := b[..n], b[n..|b| - 1];
    NumeralShorter(b, n);
  }

  lemma JoinedOn(a: seq<byte>, more: seq<byte>, underscore: seq<byte>, last: byte)
    ensures a + (more + underscore + [last]) == (a + more) + underscore + [last]
  {
  }

  lemma OneDigitAfter(a: seq<byte>, last: byte)
    requires IsNumeral(a) && IsDigit(last)
    ensures Number(a + [95] + [last]) == Number(a + [last])
  {
    NumberNext(a, [95], last);
    NumberNext(a, [], last);
    assert a + [] == a;
  }

  lemma DigitAfterBoth(a: seq<byte>, b: seq<byte>, underscore: seq<byte>, last: byte)
    requires a != [] && a[|a| - 1] != 95 && b != [] && b[|b| - 1] != 95 && Number(a) == Number(b)
    requires IsDigit(last) && (underscore == [] || underscore == [95])
    ensures Number(a + underscore + [last]) == Number(b + underscore + [last])
  {
    NumberNext(a, underscore, last);
    NumberNext(b, underscore, last);
  }

  /** An underscore between numerals does not count. */
  lemma {:induction false} UnderscoreDoesNotCount(a: seq<byte>, b: seq<byte>)
    requires IsNumeral(a) && IsNumeral(b)
    ensures Number(a + [95] + b) == Number(a + b)
    decreases |b|
  {
    if |b| == 1 {
      assert b == [b[0]];
      OneDigitAfter(a, b[0]);
    } else {
      var more, underscore, last := LastDigit(b);
      UnderscoreDoesNotCount(a, more);
      JoinedOn(a, more, underscore, last);
      JoinedOn(a + [95], more, underscore, last);
      DigitAfterBoth(a + [95] + more, a + more, underscore, last);
    }
  }

  lemma SignsCount(n: nat)
    ensures IntOf([43] + Decimal(n)) == Some(n) && IntOf([45] + Decimal(n)) == Some(-1 * n)
  {
    DecimalReadsBack(n);
    assert ([43] + Decimal(n))[1..] == Decimal(n) && ([45] + Decimal(n))[1..] == Decimal(n);
  }

  // ---- The stream ----

  /** `NotAscii` and `NotInteger` are Python's own exceptions, the others the updater's. */
  datatype StreamError = NotAscii | NotInteger | Unexpected | Truncated | Trailing

  /** The first newline at or after `offset`, or the end. */
  function LineEnd(contents: seq<byte>, offset: nat): (end: nat)
    requires offset <= |contents|
    ensures offset <= end <= |contents|
    ensures forall i :: offset <= i < end ==> contents[i] != NEWLINE
    ensures end < |contents| ==> contents[end] == NEWLINE
    decreases |contents| - offset
  {
    if offset == |contents| || contents[offset] == NEWLINE then offset
    else LineEnd(contents, offset + 1)
  }

  /** What a header line says of the blob after it. */
  function SizeIn(line: seq<byte>, id: seq<byte>): Result<int, StreamError> {
    if !Ascii(line) then Err(NotAscii)
    else
      var words := Split(line);
      if |words| != 3 || words[..2] != [id, BLOB] then Err(Unexpected)
      else
        match IntOf(words[2])
        case None => Err(NotInteger)
        case Some(size) => Ok(size)
  }

  /** The blob whose header starts at `offset`, and the offset after its newline. Without a
      newline the header is what there is, but for its last byte. */
  function NextBlob(contents: seq<byte>, offset: nat, id: seq<byte>)
    : (r: Result<(seq<byte>, nat), StreamError>)
    requires offset <= |contents|
    ensures r.Ok? ==> offset < r.value.1 <= |contents|
    ensures r != Err(Trailing)
  {
    var end := LineEnd(contents, offset);
    if end == |contents| then
      if Ascii(contents[offset..if offset < end then end - 1 else end]) then Err(Unexpected)
      else Err(NotAscii)
    else
      var size :- SizeIn(contents[offset..end], id);
      if size < 0 || end + 1 + size >= |contents| || contents[end + 1 + size] != NEWLINE then
        Err(Truncated)
      else
        Ok((contents[end + 1..end + 1 + size], end + 2 + size))
  }

  /** The blobs from `offset` on, and nothing after them. */
  function BlobsFrom(contents: seq<byte>, offset: nat, ids: seq<seq<byte>>)
    : (r: Result<seq<seq<byte>>, StreamError>)
    requires offset <= |contents|
    ensures r.Ok? ==> |r.value| == |ids|
    decreases |ids|
  {
    if ids == [] then
      if offset == |contents| then Ok([]) else Err(Trailing)
    else
      var first :- NextBlob(contents, offset, ids[0]);
      var rest :- BlobsFrom(contents, first.1, ids[1..]);
      Ok([first.0] + rest)
  }

  lemma FirstThenRest(contents: seq<byte>, offset: nat, ids: seq<seq<byte>>, blob: seq<byte>, next: nat)
    requires offset <= next <= |contents| && ids != [] && NextBlob(contents, offset, ids[0]) == Ok((blob, next))
    ensures BlobsFrom(contents, offset, ids) == Prepended([blob], BlobsFrom(contents, next, ids[1..]))
  {
  }

  /** One blob more, in terms of the blobs already had. */
  lemma BlobsNext(contents: seq<byte>, offset: nat, ids: seq<seq<byte>>, done: seq<seq<byte>>)
    requires offset <= |contents| && ids != []
    ensures match NextBlob(contents, offset, ids[0])
            case Err(e) => BlobsFrom(contents, offset, ids) == Err(e)
            case Ok((blob, next)) =>
              Prepended(done, BlobsFrom(contents, offset, ids))
              == Prepended(done + [blob], BlobsFrom(contents, next, ids[1..]))
  {
    var first := NextBlob(contents, offset, ids[0]);
    if first.Ok? {
      PrependedTwice(done, [first.value.0], BlobsFrom(contents, first.value.1, ids[1..]));
    }
  }

  // ---- What is accepted ----

  /** `line` may announce a blob of `size` bytes. */
  predicate IsHeader(line: seq<byte>, id: seq<byte>, size: nat) {
    NEWLINE !in line && SizeIn(line, id) == Ok(size)
  }

  function Part(line: seq<byte>, blob: seq<byte>): seq<byte> {
    line + ([NEWLINE] + (blob + [NEWLINE]))
  }

  function Stream(lines: seq<seq<byte>>, blobs: seq<seq<byte>>): seq<byte>
    requires |lines| == |blobs|
  {
    if lines == [] then [] else Part(lines[0], blobs[0]) + Stream(lines[1..], blobs[1..])
  }

  predicate AreHeaders(lines: seq<seq<byte>>, ids: seq<seq<byte>>, blobs: seq<seq<byte>>) {
    && |lines| == |ids| == |blobs|
    && (ids != [] ==>
          && IsHeader(lines[0], ids[0], |blobs[0]|)
          && AreHeaders(lines[1..], ids[1..], blobs[1..]))
  }

  lemma AtPart(contents: seq<byte>, offset: nat, line: seq<byte>, blob: seq<byte>)
    ensures At(contents, offset, Part(line, blob))
       <==> && At(contents, offset, line)
            && At(contents, offset + |line|, [NEWLINE])
            && At(contents, offset + |line| + 1, blob)
            && At(contents, offset + |line| + 1 + |blob|, [NEWLINE])
  {
    AtConcat(contents, offset, line, [NEWLINE] + (blob + [NEWLINE]));
    AtConcat(contents, offset + |line|, [NEWLINE], blob + [NEWLINE]);
    AtConcat(contents, offset + |line| + 1, blob, [NEWLINE]);
  }

  lemma LineStands(contents: seq<byte>, offset: nat, line: seq<byte>)
    requires NEWLINE !in line
    requires At(contents, offset, line) && At(contents, offset + |line|, [NEWLINE])
    ensures LineEnd(contents, offset) == offset + |line|
  {
    var stop := offset + |line|;
    assert contents[stop] == contents[stop..stop + 1][0];
    assert forall i :: offset <= i < stop ==> contents[i] == contents[offset..stop][i - offset];
  }

  /** One blob is read exactly when its header, it and a newline stand there. */
  lemma BlobIsRead(contents: seq<byte>, offset: nat, id: seq<byte>, line: seq<byte>, blob: seq<byte>)
    requires IsHeader(line, id, |blob|) && At(contents, offset, Part(line, blob))
    ensures NextBlob(contents, offset, id) == Ok((blob, offset + |Part(line, blob)|))
  {
    AtPart(contents, offset, line, blob);
    LineStands(contents, offset, line);
    var last := offset + |line| + 1 + |blob|;
    assert contents[last] == contents[last..last + 1][0];
  }

  lemma BlobReadStands(contents: seq<byte>, offset: nat, id: seq<byte>)
    returns (line: seq<byte>, blob: seq<byte>)
    requires offset <= |contents| && NextBlob(contents, offset, id).Ok?
    ensures IsHeader(line, id, |blob|) && At(contents, offset, Part(line, blob))
    ensures NextBlob(contents, offset, id) == Ok((blob, offset + |Part(line, blob)|))
  {
    line := contents[offset..LineEnd(contents, offset)];
    blob := NextBlob(contents, offset, id).value.0;
    AtPart(contents, offset, line, blob);
  }

  /** Parts announced by headers stand one after another from `offset` up to `end`. */
  predicate Reaches(contents: seq<byte>, offset: nat, lines: seq<seq<byte>>, ids: seq<seq<byte>>,
                    blobs: seq<seq<byte>>, end: nat)
    requires |lines| == |blobs| <= |ids|
    decreases |lines|
  {
    if lines == [] then end == offset <= |contents|
    else
      && IsHeader(lines[0], ids[0], |blobs[0]|)
      && At(contents, offset, Part(lines[0], blobs[0]))
      && Reaches(contents, offset + |Part(lines[0], blobs[0])|, lines[1..], ids[1..], blobs[1..], end)
  }

  lemma TailIs(contents: seq<byte>, offset: nat, part: seq<byte>, rest: seq<byte>)
    requires offset <= |contents|
    ensures contents[offset..] == part + rest
       <==> At(contents, offset, part) && contents[offset + |part|..] == rest
  {
    if contents[offset..] == part + rest {
      assert contents[offset..][..|part|] == part;
      assert contents[offset..][|part|..] == rest;
    }
    if At(contents, offset, part) && contents[offset + |part|..] == rest {
      assert contents[offset..] == contents[offset..offset + |part|] + contents[offset + |part|..];
    }
  }

  lemma {:induction false} ReachesAsStream(contents: seq<byte>, offset: nat, lines: seq<seq<byte>>,
                                           ids: seq<seq<byte>>, blobs: seq<seq<byte>>)
    requires offset <= |contents| && |lines| == |ids| == |blobs|
    ensures Reaches(contents, offset, lines, ids, blobs, |contents|)
       <==> AreHeaders(lines, ids, blobs) && contents[offset..] == Stream(lines, blobs)
    decreases |lines|
  {
    if lines == [] {
    } else {
      var part := Part(lines[0], blobs[0]);
      TailIs(contents, offset, part, Stream(lines[1..], blobs[1..]));
      if At(contents, offset, part) {
        ReachesAsStream(contents, offset + |part|, lines[1..], ids[1..], blobs[1..]);
      }
    }
  }

  lemma ReachesNext(contents: seq<byte>, offset: nat, lines: seq<seq<byte>>, ids: seq<seq<byte>>,
                    blobs: seq<seq<byte>>, end: nat)
    returns (next: nat)
    requires offset <= |contents| && |lines| == |blobs| <= |ids| && lines != []
    requires Reaches(contents, offset, lines, ids, blobs, end)
    ensures next <= |contents| && Reaches(contents, next, lines[1..], ids[1..], blobs[1..], end)
    ensures BlobsFrom(contents, offset, ids) == Prepended([blobs[0]], BlobsFrom(contents, next, ids[1..]))
  {
    next := offset + |Part(lines[0], blobs[0])|;
    BlobIsRead(contents, offset, ids[0], lines[0], blobs[0]);
    FirstThenRest(contents, offset, ids, blobs[0], next);
  }

  /** Entries that stand in a stream, whatever bytes are in them, are read, and then the rest. */
  lemma {:induction false} StandingIsRead(contents: seq<byte>, offset: nat, lines: seq<seq<byte>>,
                                          ids: seq<seq<byte>>, blobs: seq<seq<byte>>, end: nat)
    requires offset <= |contents| && end <= |contents| && |lines| == |blobs| <= |ids|
    requires Reaches(contents, offset, lines, ids, blobs, end)
    ensures BlobsFrom(contents, offset, ids) == Prepended(blobs, BlobsFrom(contents, end, ids[|lines|..]))
    decreases |ids|
  {
    if lines != [] {
      var next := ReachesNext(contents, offset, lines, ids, blobs, end);
      StandingIsRead(contents, next, lines[1..], ids[1..], blobs[1..], end);
      assert ids[1..][|lines| - 1..] == ids[|lines|..] && [blobs[0]] + blobs[1..] == blobs;
      PrependedTwice([blobs[0]], blobs[1..], BlobsFrom(contents, end, ids[|lines|..]));
    }
  }

  lemma ReachesBefore(contents: seq<byte>, offset: nat, line: seq<byte>, blob: seq<byte>, lines: seq<seq<byte>>,
                      ids: seq<seq<byte>>, blobs: seq<seq<byte>>, end: nat)
    requires ids != [] && IsHeader(line, ids[0], |blob|) && At(contents, offset, Part(line, blob))
    requires |lines| == |blobs| < |ids|
    requires Reaches(contents, offset + |Part(line, blob)|, lines, ids[1..], blobs, end)
    ensures Reaches(contents, offset, [line] + lines, ids, [blob] + blobs, end)
  {
    assert ([line] + lines)[1..] == lines && ([blob] + blobs)[1..] == blobs;
  }

  lemma FirstStands(contents: seq<byte>, offset: nat, ids: seq<seq<byte>>)
    returns (line: seq<byte>, blob: seq<byte>, next: nat)
    requires offset <= |contents| && ids != [] && NextBlob(contents, offset, ids[0]).Ok?
    ensures next <= |contents|
    ensures BlobsFrom(contents, offset, ids) == Prepended([blob], BlobsFrom(contents, next, ids[1..]))
    ensures forall lines, blobs, end ::
              |lines| == |blobs| < |ids| && Reaches(contents, next, lines, ids[1..], blobs, end) ==>
                Reaches(contents, offset, [line] + lines, ids, [blob] + blobs, end)
  {
    line, blob := BlobReadStands(contents, offset, ids[0]);
    next := offset + |Part(line, blob)|;
    FirstThenRest(contents, offset, ids, blob, next);
    forall lines, blobs, end |
      |lines| == |blobs| < |ids| && Reaches(contents, next, lines, ids[1..], blobs, end)
      ensures Reaches(contents, offset, [line] + lines, ids, [blob] + blobs, end)
    {
      ReachesBefore(contents, offset, line, blob, lines, ids, blobs, end);
    }
  }

  /** What is read of a stream stands in it: all of it, or the entries before the first that
      cannot be read. */
  lemma {:induction false} ReadStands(contents: seq<byte>, offset: nat, ids: seq<seq<byte>>)
    returns (lines: seq<seq<byte>>, blobs: seq<seq<byte>>, end: nat)
    requires offset <= |contents|
    ensures |lines| == |blobs| <= |ids| && Reaches(contents, offset, lines, ids, blobs, end)
    ensures end <= |contents|
    ensures match BlobsFrom(contents, offset, ids)
            case Ok(read) => read == blobs && |lines| == |ids| && end == |contents|
            case Err(e) =>
              if |lines| == |ids| then e == Trailing && end < |contents|
              else NextBlob(contents, end, ids[|lines|]) == Err(e)
    decreases |ids|
  {
    if ids == [] || NextBlob(contents, offset, ids[0]).Err? {
      lines, blobs, end := [], [], offset;
    } else {
      var line, blob, next := FirstStands(contents, offset, ids);
      var moreLines, moreBlobs;
      moreLines, moreBlobs, end := ReadStands(contents, next, ids[1..]);
      lines, blobs := [line] + moreLines, [blob] + moreBlobs;
    }
  }

  /** A stream is accepted exactly when it is such a partition, and the blobs are its blobs. */
  lemma AcceptsExactlyPartitions(contents: seq<byte>, ids: seq<seq<byte>>, blobs: seq<seq<byte>>)
    ensures BlobsFrom(contents, 0, ids) == Ok(blobs)
       <==> exists lines :: AreHeaders(lines, ids, blobs) && contents == Stream(lines, blobs)
  {
    assert contents[0..] == contents;
    if BlobsFrom(contents, 0, ids) == Ok(blobs) {
      var lines, read, end := ReadStands(contents, 0, ids);
      ReachesAsStream(contents, 0, lines, ids, blobs);
      assert AreHeaders(lines, ids, blobs) && contents == Stream(lines, blobs);
    }
    forall lines | AreHeaders(lines, ids, blobs) && contents == Stream(lines, blobs)
      ensures BlobsFrom(contents, 0, ids) == Ok(blobs)
    {
      ReachesAsStream(contents, 0, lines, ids, blobs);
      StandingIsRead(contents, 0, lines, ids, blobs, |contents|);
    }
  }

  // ---- What Git writes ----

  function HeaderLine(id: seq<byte>, word: seq<byte>): seq<byte> {
    id + ([SPACE] + (BLOB + ([SPACE] + word)))
  }

  function GitLine(id: seq<byte>, size: nat): seq<byte> {
    HeaderLine(id, Decimal(size))
  }

  function GitLines(ids: seq<seq<byte>>, blobs: seq<seq<byte>>): (lines: seq<seq<byte>>)
    requires |ids| == |blobs|
    ensures |lines| == |ids|
  {
    if ids == [] then [] else [GitLine(ids[0], |blobs[0]|)] + GitLines(ids[1..], blobs[1..])
  }

  lemma {:induction false} GitLinesAreHeaders(ids: seq<seq<byte>>, blobs: seq<seq<byte>>)
    requires |ids| == |blobs| && forall id <- ids :: IsWord(id)
    ensures AreHeaders(GitLines(ids, blobs), ids, blobs)
  {
    if ids == [] {
    } else {
      GitLineIsHeader(ids[0], |blobs[0]|);
      GitLinesAreHeaders(ids[1..], blobs[1..]);
      assert GitLines(ids, blobs)[1..] == GitLines(ids[1..], blobs[1..]);
    }
  }

  lemma SplitWord(word: seq<byte>, rest: seq<byte>)
    requires word != [] && forall b <- word :: !IsSpace(b)
    requires rest == [] || IsSpace(rest[0])
    ensures Split(word + rest) == [word] + Split(rest)
  {
    var line := word + rest;
    forall i | 0 <= i < |word|
      ensures !IsSpace(line[i])
    {
      assert line[i] == word[i] && word[i] in word;
    }
    assert rest != [] ==> line[|word|] == rest[0];
    assert WordLength(line) == |word|;
    assert line[..|word|] == word && line[|word|..] == rest;
  }

  lemma SplitAfterSpace(word: seq<byte>, rest: seq<byte>)
    requires word != [] && forall b <- word :: !IsSpace(b)
    requires rest == [] || IsSpace(rest[0])
    ensures Split([SPACE] + (word + rest)) == [word] + Split(rest)
  {
    assert ([SPACE] + (word + rest))[1..] == word + rest;
    SplitWord(word, rest);
  }

  lemma HeaderWords(id: seq<byte>, word: seq<byte>)
    requires IsWord(id) && IsWord(word)
    ensures Split(HeaderLine(id, word)) == [id, BLOB, word]
  {
    SplitAfterSpace(word, []);
    assert word + [] == word;
    SplitAfterSpace(BLOB, [SPACE] + word);
    SplitWord(id, [SPACE] + (BLOB + ([SPACE] + word)));
  }

  lemma HeaderIsPlain(id: seq<byte>, word: seq<byte>)
    requires IsWord(id) && IsWord(word)
    ensures Ascii(HeaderLine(id, word)) && NEWLINE !in HeaderLine(id, word)
  {
  }

  lemma GitLineIsHeader(id: seq<byte>, size: nat)
    requires IsWord(id)
    ensures IsHeader(GitLine(id, size), id, size)
  {
    HeaderWords(id, Decimal(size));
    HeaderIsPlain(id, Decimal(size));
    DecimalReadsBack(size);
    assert [id, BLOB, Decimal(size)][..2] == [id, BLOB];
  }

  /** The round trip: for every list of objects and any contents at all, newlines and bytes
      that look like headers included, exactly the blobs asked for come back. */
  lemma GitStreamRoundTrip(ids: seq<seq<byte>>, blobs: seq<seq<byte>>)
    requires |ids| == |blobs| && forall id <- ids :: IsWord(id)
    ensures BlobsFrom(Stream(GitLines(ids, blobs), blobs), 0, ids) == Ok(blobs)
  {
    GitLinesAreHeaders(ids, blobs);
    AcceptsExactlyPartitions(Stream(GitLines(ids, blobs), blobs), ids, blobs);
  }

  // ---- What is refused ----

  /** The header names the object, and is three words. */
  predicate Names(header: seq<byte>, id: seq<byte>) {
    |Split(header)| == 3 && Split(header)[..2] == [id, BLOB]
  }

  ghost predicate BlobFollows(contents: seq<byte>, pos: nat, size: int) {
    exists blob: seq<byte> :: |blob| == size && At(contents, pos, blob + [NEWLINE])
  }

  /** What is wrong with the header of an object, and with what follows it, where `line` says
      whether it ends in a newline, before `pos`. */
  ghost predicate IsWrong(contents: seq<byte>, header: seq<byte>, line: bool, pos: nat, id: seq<byte>,
                          e: StreamError)
  {
    match e
    case NotAscii => exists i :: 0 <= i < |header| && header[i] >= 128
    case Unexpected => Ascii(header) && !(line && Names(header, id))
    case NotInteger => Ascii(header) && line && Names(header, id) && IntOf(Split(header)[2]) == None
    case Truncated =>
      && Ascii(header) && line && Names(header, id) && IntOf(Split(header)[2]).Some?
      && !BlobFollows(contents, pos, IntOf(Split(header)[2]).value)
    case Trailing => false
  }

  /** Something is wrong at `start`: the header is what is there before the next newline, or
      before the last byte if there is none. */
  ghost predicate Fails(contents: seq<byte>, start: nat, id: seq<byte>, e: StreamError)
    requires start <= |contents|
  {
    var end := LineEnd(contents, start);
    var line := end < |contents|;
    IsWrong(contents, contents[start..if line || start == end then end else end - 1], line, end + 1, id, e)
  }

  lemma BlobFollowsExactly(contents: seq<byte>, pos: nat, size: int)
    ensures BlobFollows(contents, pos, size)
       <==> 0 <= size && pos + size < |contents| && contents[pos + size] == NEWLINE
  {
    if 0 <= size && pos + size < |contents| && contents[pos + size] == NEWLINE {
      var blob := contents[pos..pos + size];
      assert At(contents, pos, blob + [NEWLINE]);
    }
    forall blob: seq<byte> | |blob| == size && At(contents, pos, blob + [NEWLINE])
      ensures pos + size < |contents| && contents[pos + size] == NEWLINE
    {
      var part := contents[pos..pos + |blob + [NEWLINE]|];
      assert part[size] == (blob + [NEWLINE])[size] && part[size] == contents[pos + size];
    }
  }

  lemma NotAsciiExactly(header: seq<byte>)
    ensures !Ascii(header) <==> exists i :: 0 <= i < |header| && header[i] >= 128
  {
    if !Ascii(header) {
      var b :| b in header && b >= 128;
    }
    forall i | 0 <= i < |header| && header[i] >= 128
      ensures !Ascii(header)
    {
      assert header[i] in header;
    }
  }

  lemma SizeFailsExactly(header: seq<byte>, id: seq<byte>, contents: seq<byte>, pos: nat, e: StreamError)
    ensures (match SizeIn(header, id)
             case Err(error) => e == error
             case Ok(size) => e == Truncated && !BlobFollows(contents, pos, size))
       <==> IsWrong(contents, header, true, pos, id, e)
  {
    NotAsciiExactly(header);
  }

  lemma LineFailsExactly(contents: seq<byte>, start: nat, id: seq<byte>, header: seq<byte>, e: StreamError)
    requires start <= |contents| && LineEnd(contents, start) < |contents|
    requires header == contents[start..LineEnd(contents, start)]
    ensures NextBlob(contents, start, id) == Err(e)
       <==> match SizeIn(header, id)
            case Err(error) => e == error
            case Ok(size) => e == Truncated && !BlobFollows(contents, LineEnd(contents, start) + 1, size)
  {
    if SizeIn(header, id).Ok? {
      BlobFollowsExactly(contents, LineEnd(contents, start) + 1, SizeIn(header, id).value);
    }
  }

  /** An entry cannot be read, with a given error, exactly when that is what is wrong. */
  lemma NextFailsExactly(contents: seq<byte>, start: nat, id: seq<byte>, e: StreamError)
    requires start <= |contents|
    ensures NextBlob(contents, start, id) == Err(e) <==> Fails(contents, start, id, e)
  {
    var end := LineEnd(contents, start);
    if end < |contents| {
      LineFailsExactly(contents, start, id, contents[start..end], e);
      SizeFailsExactly(contents[start..end], id, contents, end + 1, e);
    } else {
      NotAsciiExactly(contents[start..if start == end then end else end - 1]);
    }
  }

  /** After the entries that stand in the stream, the first that does not is what is wrong; or
      all stand and something follows them. */
  ghost predicate StopsAt(contents: seq<byte>, offset: nat, lines: seq<seq<byte>>, ids: seq<seq<byte>>,
                          blobs: seq<seq<byte>>, end: nat, e: StreamError)
  {
    && |lines| == |blobs| <= |ids| && Reaches(contents, offset, lines, ids, blobs, end) && end <= |contents|
    && if |lines| == |ids| then e == Trailing && end < |contents| else Fails(contents, end, ids[|lines|], e)
  }

  lemma StopFails(contents: seq<byte>, lines: seq<seq<byte>>, ids: seq<seq<byte>>, blobs: seq<seq<byte>>,
                  end: nat, e: StreamError)
    requires StopsAt(contents, 0, lines, ids, blobs, end, e)
    ensures BlobsFrom(contents, 0, ids) == Err(e)
  {
    if |lines| < |ids| {
      NextFailsExactly(contents, end, ids[|lines|], e);
    }
    StandingIsRead(contents, 0, lines, ids, blobs, end);
  }

  lemma FailureStops(contents: seq<byte>, ids: seq<seq<byte>>, e: StreamError)
    returns (lines: seq<seq<byte>>, blobs: seq<seq<byte>>, end: nat)
    requires BlobsFrom(contents, 0, ids) == Err(e)
    ensures StopsAt(contents, 0, lines, ids, blobs, end, e)
  {
    lines, blobs, end := ReadStands(contents, 0, ids);
    if |lines| < |ids| {
      NextFailsExactly(contents, end, ids[|lines|], e);
    }
  }

  /** A stream fails with a given error exactly when that is what is wrong with the first entry
      that does not stand in it, or with what follows them all. */
  lemma FailsExactly(contents: seq<byte>, ids: seq<seq<byte>>, e: StreamError)
    ensures BlobsFrom(contents, 0, ids) == Err(e)
       <==> exists lines, blobs, end :: StopsAt(contents, 0, lines, ids, blobs, end, e)
  {
    if BlobsFrom(contents, 0, ids) == Err(e) {
      var lines, blobs, end := FailureStops(contents, ids, e);
    }
    forall lines, blobs, end | StopsAt(contents, 0, lines, ids, blobs, end, e)
      ensures BlobsFrom(contents, 0, ids) == Err(e)
    {
      StopFails(contents, lines, ids, blobs, end, e);
    }
  }

  /** Streams that end in Python's own exceptions: a header that is not ASCII, and one whose size
      is a word but no integer. */
  lemma NotAsciiHeader(id: seq<byte>)
    ensures BlobsFrom([200, NEWLINE], 0, [id]) == Err(NotAscii)
  {
    assert [200, NEWLINE][0..1] == [200] && 200 in [200];
    assert LineEnd([200, NEWLINE], 0) == 1;
  }

  lemma NotIntegerHeader(id: seq<byte>, word: seq<byte>)
    requires IsWord(id) && IsWord(word) && IntOf(word) == None
    ensures BlobsFrom(HeaderLine(id, word) + [NEWLINE], 0, [id]) == Err(NotInteger)
  {
    var line := HeaderLine(id, word);
    var contents := line + [NEWLINE];
    HeaderWords(id, word);
    HeaderIsPlain(id, word);
    assert contents[0..|line|] == line && contents[|line|..|line| + 1] == [NEWLINE];
    LineStands(contents, 0, line);
    assert [id, BLOB, word][..2] == [id, BLOB];
  }

  lemma LetterIsNoInteger()
    ensures IsWord([120]) && IntOf([120]) == None
  {
  }
}
