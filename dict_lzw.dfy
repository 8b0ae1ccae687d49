/** LZW dictionary coding. The encoder grows a phrase dictionary whose new entries get
    the codes 256, 257, ...; it emits a signed literal byte for a one-byte phrase and the
    dictionary code otherwise. The archive is the original size as an 8-byte big-endian
    long followed by every code as a 4-byte big-endian int. The decoder rebuilds the same
    dictionary one entry behind the encoder. */
module DictLzw {
  import opened Results
  import opened Bytes
  import opened AbstractCompressor

  type Phrase = seq<Byte>

  datatype Error =
    /** A dictionary code arrived before any phrase was decoded (`lastEntry` is null). */
    | NullLastEntry
    /** The recorded size is 2^31 or more, which the decoder's `int` byte counter never
        reaches, so the loop never ends. */
    | NeverEnds
    /** A phrase carried the `int` byte counter past 2^31 - 1 below a recorded size
        that fits an `int`, so the counter wrapped negative. */
    | CounterWraps

  /** The phrase a code denotes, given the dictionary entries numbered from 256. */
  function PhraseOf(dict: seq<Phrase>, code: int): Phrase
    requires code < 256 || code - 256 < |dict|
  {
    if code < 256 then [Truncate(code)] else dict[code - 256]
  }

  /** A code the encoder can emit as its j-th code: a literal `(int)b` in -128..127, or the
      code of one of the j dictionary entries created before it. */
  predicate KnownCode(code: int, j: int)
  {
    -128 <= code < 128 || 256 <= code < 256 + j
  }

  function Phrases(dict: seq<Phrase>, codes: seq<int>): seq<Phrase>
    requires forall j :: 0 <= j < |codes| ==> codes[j] < 256 || codes[j] - 256 < |dict|
  {
    seq(|codes|, j requires 0 <= j < |codes| => PhraseOf(dict, codes[j]))
  }

  function Flatten(ps: seq<Phrase>): seq<Byte>
  {
    if ps == [] then [] else Flatten(ps[..|ps| - 1]) + ps[|ps| - 1]
  }

  /** What one encoder run promises about its codes and the dictionary it built:
      - one dictionary entry per emitted code except the last;
      - every code is a literal or refers to an entry created before it was emitted;
      - entry k (code 256 + k) is the phrase of code k extended by the first byte of the
        phrase of code k + 1, so it has at least two bytes;
      - no phrase is entered twice;
      - the phrases of the codes, concatenated, are the input. */
  ghost predicate IsTrace(input: seq<Byte>, codes: seq<int>, dict: seq<Phrase>)
  {
    && |dict| == (if codes == [] then 0 else |codes| - 1)
    && (forall j :: 0 <= j < |codes| ==> KnownCode(codes[j], j))
    && (forall k :: 0 <= k < |dict| ==> |dict[k]| >= 2)
    && (forall k :: 0 <= k < |dict| ==>
          dict[k] == PhraseOf(dict, codes[k]) + [PhraseOf(dict, codes[k + 1])[0]])
    && (forall k, m :: 0 <= k < m < |dict| ==> dict[k] != dict[m])
    && Flatten(Phrases(dict, codes)) == input
  }

  lemma {:induction false} FlattenSnoc(ps: seq<Phrase>, p: Phrase)
    ensures Flatten(ps + [p]) == Flatten(ps) + p
  {
    assert (ps + [p])[..|ps|] == ps;
  }

  /** The HashMap of the encoder holds exactly the dictionary entries, entry k under code 256 + k. */
  ghost predicate TableMatches(table: map<Phrase, int>, dict: seq<Phrase>)
  {
    && (forall k :: 0 <= k < |dict| ==> dict[k] in table && table[dict[k]] == 256 + k)
    && (forall w :: w in table ==> 256 <= table[w] < 256 + |dict| && dict[table[w] - 256] == w)
  }

  /** Code j denotes phrase j. */
  ghost predicate Denotes(codes: seq<int>, dict: seq<Phrase>, phrases: seq<Phrase>, j: int)
  {
    && 0 <= j < |codes| && j < |phrases| && KnownCode(codes[j], j)
    && (codes[j] < 256 || codes[j] - 256 < |dict|)
    && PhraseOf(dict, codes[j]) == phrases[j]
  }

  /** Entry k is phrase k extended by the first byte of phrase k + 1. */
  ghost predicate Linked(dict: seq<Phrase>, phrases: seq<Phrase>, k: int)
  {
    && 0 <= k < |dict| && k + 1 < |phrases| && |phrases[k + 1]| >= 1
    && dict[k] == phrases[k] + [phrases[k + 1][0]]
  }

  /** The codes emitted so far denote the phrases emitted so far. */
  ghost predicate CodesDenote(codes: seq<int>, dict: seq<Phrase>, phrases: seq<Phrase>)
  {
    && |phrases| == |codes| <= |dict| + 1
    && (forall k :: 0 <= k < |dict| ==> |dict[k]| >= 2)
    && (forall j :: 0 <= j < |codes| ==> Denotes(codes, dict, phrases, j))
  }

  /** The encoder's state before it processes input byte i + 1: the emitted phrases followed
      by the pending `word` (which ends with byte i) spell the first i + 1 input bytes, and
      each entry is its emitted phrase extended by the first byte of the phrase after it. */
  ghost predicate Encoding(input: seq<Byte>, i: nat, codes: seq<int>, dict: seq<Phrase>,
                           phrases: seq<Phrase>, table: map<Phrase, int>, word: Phrase)
  {
    && i < |input|
    && |dict| == |codes|
    && CodesDenote(codes, dict, phrases)
    && TableMatches(table, dict)
    && |word| >= 1 && (|word| >= 2 ==> word in table)
    && word[|word| - 1] == input[i]
    && Flatten(phrases) + word == input[..i + 1]
    && (forall k :: 0 <= k < |dict| ==> Linked(dict, phrases + [word], k))
  }

  /** The encoder's state once the whole input is processed and the pending word flushed. */
  ghost predicate Encoded(input: seq<Byte>, codes: seq<int>, dict: seq<Phrase>,
                          phrases: seq<Phrase>, table: map<Phrase, int>)
  {
    && |dict| == (if codes == [] then 0 else |codes| - 1)
    && CodesDenote(codes, dict, phrases)
    && TableMatches(table, dict)
    && Flatten(phrases) == input
    && (forall k :: 0 <= k < |dict| ==> Linked(dict, phrases, k))
  }

  /** The code the encoder emits for the pending word denotes that word. */
  lemma {:induction false} PendingCode(input: seq<Byte>, i: nat, dict: seq<Phrase>, table: map<Phrase, int>,
                    word: Phrase, code: int)
    requires i < |input| && TableMatches(table, dict)
    requires |word| >= 1 && (|word| >= 2 ==> word in table) && word[|word| - 1] == input[i]
    requires code == if |word| == 1 then Signed(input[i]) else table[word]
    ensures KnownCode(code, |dict|) && (code < 256 || code - 256 < |dict|)
    ensures PhraseOf(dict, code) == word
  {
    if |word| == 1 {
      var b := input[i];
      assert Truncate(Signed(b)) == b;
      assert word == [b];
    } else {
      assert dict[table[word] - 256] == word;
    }
  }

  /** The extended word is already an entry: keep extending, emit nothing. */
  lemma {:induction false} EncodeExtend(input: seq<Byte>, i: nat, codes: seq<int>, dict: seq<Phrase>,
                     phrases: seq<Phrase>, table: map<Phrase, int>, word: Phrase)
    requires Encoding(input, i, codes, dict, phrases, table, word)
    requires i + 1 < |input| && word + [input[i + 1]] in table
    ensures Encoding(input, i + 1, codes, dict, phrases, table, word + [input[i + 1]])
  {
    var w := word + [input[i + 1]];
    assert input[..i + 2] == input[..i + 1] + [input[i + 1]];
    forall k | 0 <= k < |dict|
      ensures Linked(dict, phrases + [w], k)
    {
      assert Linked(dict, phrases + [word], k);
      if k + 1 == |phrases| {
        assert (phrases + [w])[k + 1][0] == w[0] == word[0] == (phrases + [word])[k + 1][0];
      } else {
        assert (phrases + [w])[k + 1] == phrases[k + 1] == (phrases + [word])[k + 1];
      }
    }
  }

  /** The extended word is new: emit the code of the word, enter the extended word under the
      next code and restart from the new byte. */
  lemma {:induction false} EncodeEmit(input: seq<Byte>, i: nat, codes: seq<int>, dict: seq<Phrase>,
                   phrases: seq<Phrase>, table: map<Phrase, int>, word: Phrase, code: int)
    requires Encoding(input, i, codes, dict, phrases, table, word)
    requires i + 1 < |input| && word + [input[i + 1]] !in table
    requires code == if |word| == 1 then Signed(input[i]) else table[word]
    ensures var w := word + [input[i + 1]];
      Encoding(input, i + 1, codes + [code], dict + [w], phrases + [word],
               table[w := 256 + |dict|], [input[i + 1]])
  {
    var w := word + [input[i + 1]];
    PendingCode(input, i, dict, table, word, code);
    EmitDenotes(codes, dict, phrases, word, code, w);
    EmitTable(table, dict, w);
    FlattenSnoc(phrases, word);
    assert input[..i + 2] == input[..i + 1] + [input[i + 1]];
    EmitLinked(dict, phrases, word, w, input[i + 1]);
  }

  lemma {:induction false} EmitDenotes(codes: seq<int>, dict: seq<Phrase>, phrases: seq<Phrase>, word: Phrase,
                    code: int, w: Phrase)
    requires |dict| == |codes| && CodesDenote(codes, dict, phrases) && |w| >= 2
    requires KnownCode(code, |dict|) && (code < 256 || code - 256 < |dict|)
    requires PhraseOf(dict, code) == word
    ensures CodesDenote(codes + [code], dict + [w], phrases + [word])
  {
    var codes', dict', phrases' := codes + [code], dict + [w], phrases + [word];
    forall j | 0 <= j < |codes'|
      ensures Denotes(codes', dict', phrases', j)
    {
      if j < |codes| {
        assert Denotes(codes, dict, phrases, j);
        assert codes'[j] == codes[j] && phrases'[j] == phrases[j];
      } else {
        assert codes'[j] == code && phrases'[j] == word;
      }
    }
  }

  lemma {:induction false} EmitTable(table: map<Phrase, int>, dict: seq<Phrase>, w: Phrase)
    requires TableMatches(table, dict) && w !in table
    ensures TableMatches(table[w := 256 + |dict|], dict + [w])
  {
    var table' := table[w := 256 + |dict|];
    forall k | 0 <= k < |dict|
      ensures dict[k] in table' && table'[dict[k]] == 256 + k
    {
      assert dict[k] != w;
    }
  }

  lemma {:induction false} EmitLinked(dict: seq<Phrase>, phrases: seq<Phrase>, word: Phrase, w: Phrase, b: Byte)
    requires |dict| == |phrases| && |word| >= 1 && w == word + [b]
    requires forall k :: 0 <= k < |dict| ==> Linked(dict, phrases + [word], k)
    ensures forall k :: 0 <= k < |dict| + 1 ==> Linked(dict + [w], phrases + [word] + [[b]], k)
  {
    var dict', next := dict + [w], phrases + [word] + [[b]];
    forall k | 0 <= k < |dict'|
      ensures Linked(dict', next, k)
    {
      if k < |dict| {
        assert Linked(dict, phrases + [word], k);
        assert next[k + 1] == (phrases + [word])[k + 1];
      }
    }
  }

  /** The last byte is processed: flush the code of the pending word. */
  lemma {:induction false} EncodeFlush(input: seq<Byte>, i: nat, codes: seq<int>, dict: seq<Phrase>,
                    phrases: seq<Phrase>, table: map<Phrase, int>, word: Phrase, code: int)
    requires Encoding(input, i, codes, dict, phrases, table, word)
    requires i + 1 == |input|
    requires code == if |word| == 1 then Signed(input[i]) else table[word]
    ensures Encoded(input, codes + [code], dict, phrases + [word], table)
  {
    var codes', phrases' := codes + [code], phrases + [word];
    PendingCode(input, i, dict, table, word, code);
    forall j | 0 <= j < |codes'|
      ensures Denotes(codes', dict, phrases', j)
    {
      if j < |codes| {
        assert Denotes(codes, dict, phrases, j);
        assert codes'[j] == codes[j] && phrases'[j] == phrases[j];
      } else {
        assert codes'[j] == code && phrases'[j] == word;
      }
    }
    assert CodesDenote(codes', dict, phrases');
    FlattenSnoc(phrases, word);
    assert input[..i + 1] == input;
  }

  lemma {:induction false} EncodedIsTrace(input: seq<Byte>, codes: seq<int>, dict: seq<Phrase>,
                       phrases: seq<Phrase>, table: map<Phrase, int>)
    requires Encoded(input, codes, dict, phrases, table)
    ensures IsTrace(input, codes, dict)
  {
    forall j | 0 <= j < |codes|
      ensures KnownCode(codes[j], j) && (codes[j] < 256 || codes[j] - 256 < |dict|)
      ensures PhraseOf(dict, codes[j]) == phrases[j]
    {
      assert Denotes(codes, dict, phrases, j);
    }
    assert Phrases(dict, codes) == phrases;
    forall k | 0 <= k < |dict|
      ensures dict[k] == PhraseOf(dict, codes[k]) + [PhraseOf(dict, codes[k + 1])[0]]
    {
      assert Linked(dict, phrases, k) && Denotes(codes, dict, phrases, k);
      assert Denotes(codes, dict, phrases, k + 1);
    }
    forall k, m | 0 <= k < m < |dict|
      ensures dict[k] != dict[m]
    {
      assert table[dict[k]] == 256 + k && table[dict[m]] == 256 + m;
    }
  }

  /** The encoder loop of `compress`: `word` is the pending phrase, `table` the HashMap
      from phrases to codes and `nextNo` the last code handed out. */
  method EncodeCodes(input: seq<Byte>) returns (codes: seq<int>, ghost dict: seq<Phrase>)
    ensures IsTrace(input, codes, dict)
    ensures |codes| <= |input|
  {
    var table: map<Phrase, int> := map[];
    var nextNo := 255;
    codes, dict := [], [];
    ghost var phrases: seq<Phrase> := [];
    // the first read; on an empty file `read()` returns -1, which `(byte)` turns into 0xFF
    var nextByte: Byte := if |input| > 0 then input[0] else 255;
    var word: Phrase := [nextByte];
    var i := 0;
    assert |input| > 0 ==> input[..1] == [input[0]];
    while i < |input|
      invariant 0 <= i <= |input|
      invariant nextNo == 255 + |dict|
      invariant i < |input| ==>
        nextByte == input[i] && Encoding(input, i, codes, dict, phrases, table, word)
      invariant i == |input| ==> Encoded(input, codes, dict, phrases, table)
    {
      var crtByte := nextByte;
      if i < |input| - 1 {
        nextByte := input[i + 1];
        var oldWord := word;
        word := word + [nextByte];
        if word !in table {
          // emit the code of the phrase before the extension
          var code := if |oldWord| == 1 then Signed(crtByte) else table[oldWord];
          EncodeEmit(input, i, codes, dict, phrases, table, oldWord, code);
          codes := codes + [code];
          phrases := phrases + [oldWord];
          // enter the extended phrase under the next free code
          nextNo := nextNo + 1;
          table := table[word := nextNo];
          dict := dict + [word];
          word := [nextByte];
        } else {
          EncodeExtend(input, i, codes, dict, phrases, table, oldWord);
        }
      } else {
        // end of input: flush the pending phrase
        var code := if |word| == 1 then Signed(crtByte) else table[word];
        EncodeFlush(input, i, codes, dict, phrases, table, word, code);
        codes := codes + [code];
        phrases := phrases + [word];
      }
      i := i + 1;
    }
    EncodedIsTrace(input, codes, dict, phrases, table);
    TraceBounds(input, codes, dict);
  }

  /* ---------------------------------------------------------------------------------- */
  /* Serialisation                                                                        */

  predicate CodesFitInt(codes: seq<int>)
  {
    forall j :: 0 <= j < |codes| ==> IsInt32(codes[j])
  }

  /** Every code as a 4-byte big-endian int, in order. */
  function CodeBytes(codes: seq<int>): (r: seq<Byte>)
    requires CodesFitInt(codes)
    ensures |r| == 4 * |codes|
  {
    if codes == [] then [] else CodeBytes(codes[..|codes| - 1]) + PutInt(codes[|codes| - 1])
  }

  /** The whole archive: the original size, then the codes. */
  function Archive(fileSize: int, codes: seq<int>): seq<Byte>
    requires IsInt64(fileSize) && CodesFitInt(codes)
  {
    PutLong(fileSize) + CodeBytes(codes)
  }

  /** The loop that writes the codes after the header. */
  method WriteCodes(codes: seq<int>) returns (out: seq<Byte>)
    requires CodesFitInt(codes)
    ensures out == CodeBytes(codes)
  {
    out := [];
    for j := 0 to |codes|
      invariant out == CodeBytes(codes[..j])
    {
      assert codes[..j + 1][..j] == codes[..j];
      out := out + PutInt(codes[j]);
    }
    assert codes[..|codes|] == codes;
  }

  /** The idx-th code the decoder reads after the header: four bytes read into a fresh
      buffer, so bytes past the end of the archive read as zero. */
  function CodeAt(body: seq<Byte>, idx: nat): int
  {
    GetInt(ReadPadded(body, 4 * idx, 4))
  }

  lemma {:induction false} CodeBytesAt(codes: seq<int>, j: nat)
    requires CodesFitInt(codes) && j < |codes|
    ensures CodeBytes(codes)[4 * j..4 * j + 4] == PutInt(codes[j])
  {
    var n := |codes| - 1;
    if j < n {
      CodeBytesAt(codes[..n], j);
      assert CodeBytes(codes)[4 * j..4 * j + 4] == CodeBytes(codes[..n])[4 * j..4 * j + 4];
    }
  }

  /** Reading the written codes back yields each code, at its own index. */
  lemma {:induction false} CodeAtCodeBytes(codes: seq<int>, j: nat)
    requires CodesFitInt(codes) && j < |codes|
    ensures CodeAt(CodeBytes(codes), j) == codes[j]
  {
    var bs := CodeBytes(codes);
    CodeBytesAt(codes, j);
    ReadPaddedInside(bs, 4 * j, 4);
    assert ReadPadded(bs, 4 * j, 4) == PutInt(codes[j]);
    GetPutInt(codes[j]);
  }

  /* ---------------------------------------------------------------------------------- */
  /* Decoding                                                                             */

  /** The decoder's state: its table (entry k has code 256 + k), the previous phrase and
      the bytes written so far. */
  datatype Decoder = Decoder(table: seq<Phrase>, lastEntry: Option<Phrase>, out: seq<Byte>)
  {
    predicate Valid()
    {
      && (lastEntry.Some? ==> |lastEntry.value| >= 1)
      && (forall k :: 0 <= k < |table| ==> |table[k]| >= 1)
    }
  }

  const Start := Decoder([], None, [])

  /** The phrase one code decodes to: a literal `(byte)code` below 256; otherwise the table
      entry, or, when the code is not in the table yet, the previous phrase followed by its
      own first byte. */
  function Entry(d: Decoder, code: int): (r: Result<Phrase, Error>)
    requires d.Valid()
    ensures r.Err? <==> code >= 256 && code - 256 >= |d.table| && d.lastEntry.None?
    ensures r.Ok? ==> |r.value| >= 1
    ensures r.Ok? && code < 256 ==> |r.value| == 1 && Signed(r.value[0]) % 256 == code % 256
  {
    if code < 256 then Ok([Truncate(code)])
    else if code - 256 >= |d.table| then
      (if d.lastEntry.None? then Err(NullLastEntry)
       else Ok(d.lastEntry.value + [d.lastEntry.value[0]]))
    else Ok(d.table[code - 256])
  }

  /** One pass of the decoder loop: write the phrase, then (from the second code on) add
      the previous phrase extended by the first byte of this one to the table. */
  function Step(d: Decoder, code: int): (r: Result<Decoder, Error>)
    requires d.Valid()
    ensures r.Ok? ==> r.value.Valid() && |r.value.out| > |d.out| && r.value.out[..|d.out|] == d.out
    ensures r.Ok? ==> |r.value.table| == |d.table| + (if d.lastEntry.Some? then 1 else 0)
  {
    match Entry(d, code)
    case Err(e) => Err(e)
    case Ok(entry) =>
      var table := if d.lastEntry.Some? then d.table + [d.lastEntry.value + [entry[0]]] else d.table;
      Ok(Decoder(table, Some(entry), d.out + entry))
  }

  /** The last byte of a table entry as the Java decoder stores and reads it back: the
      entry is a `String`, its last char is `(char)entry[0]`, and `getBytes()` turns it
      into bytes again. Under ISO-8859-1 a byte of 0x80 or more, which `(char)` widens to a
      char of U+FF80 or more, comes back as '?' (0x3F). */
  function Latin1Back(b: Byte): (r: Byte)
    ensures r == b <==> b < 0x80
  {
    if b < 0x80 then b else 0x3F
  }

  /** One pass of the decoder loop as written, with the platform charset ISO-8859-1: the
      entry added to the table ends in `Latin1Back` of the phrase's first byte. */
  function StepAsWritten(d: Decoder, code: int): (r: Result<Decoder, Error>)
    requires d.Valid()
    ensures r.Ok? <==> Step(d, code).Ok?
    ensures r.Ok? ==> r.value.Valid() && r.value.out == Step(d, code).value.out
  {
    match Entry(d, code)
    case Err(e) => Err(e)
    case Ok(entry) =>
      var table := if d.lastEntry.Some? then d.table + [d.lastEntry.value + [Latin1Back(entry[0])]] else d.table;
      Ok(Decoder(table, Some(entry), d.out + entry))
  }

  /** The decoder loop from the idx-th code on: stop as soon as `fileSize` bytes are out.
      The byte counter is an `int`: once the output reaches 2^31 bytes it has wrapped, and
      the loop either never ends (a recorded size of 2^31 or more) or goes on with a
      negative counter. */
  function Run(body: seq<Byte>, fileSize: int, idx: nat, d: Decoder): (r: Result<seq<Byte>, Error>)
    requires d.Valid() && |d.out| < TWO_31
    ensures r.Ok? ==> |r.value| < TWO_31 && |r.value| >= fileSize
    ensures r.Err? && r.error == NeverEnds ==> fileSize >= TWO_31
    ensures r.Err? && r.error == CounterWraps ==> fileSize < TWO_31
    decreases TWO_31 - |d.out|
  {
    if |d.out| >= fileSize then Ok(d.out)
    else
      match Step(d, CodeAt(body, idx))
      case Err(e) => Err(e)
      case Ok(d') =>
        if |d'.out| >= TWO_31 then Err(if fileSize >= TWO_31 then NeverEnds else CounterWraps)
        else Run(body, fileSize, idx + 1, d')
  }

  /** The body of an archive: what follows the 8-byte header (nothing when it is short). */
  function Body(archive: seq<Byte>): seq<Byte>
  {
    if |archive| >= 8 then archive[8..] else []
  }

  /** What `decompress` writes for an archive. A recorded size of 2^31 or more never
      decodes: the loop fails on its first code or never ends. */
  function Decode(archive: seq<Byte>): (r: Result<seq<Byte>, Error>)
    ensures r.Ok? ==> GetLong(ReadPadded(archive, 0, 8)) <= |r.value| < TWO_31
    ensures GetLong(ReadPadded(archive, 0, 8)) >= TWO_31 ==>
      r.Err? && r.error != CounterWraps
  {
    Run(Body(archive), GetLong(ReadPadded(archive, 0, 8)), 0, Start)
  }

  /** Once a phrase has been decoded the loop cannot fail on a null `lastEntry`. */
  lemma {:induction false} RunAfterFirst(body: seq<Byte>, fileSize: int, idx: nat, d: Decoder)
    requires d.Valid() && |d.out| < TWO_31 && d.lastEntry.Some?
    ensures Run(body, fileSize, idx, d) != Err(NullLastEntry)
    decreases TWO_31 - |d.out|
  {
    if |d.out| < fileSize {
      var r := Step(d, CodeAt(body, idx));
      assert r.Ok?;
      if |r.value.out| < TWO_31 {
        RunAfterFirst(body, fileSize, idx + 1, r.value);
      }
    }
  }

  /** A recorded size of 2^31 or more whose first code is a literal: the loop never ends. */
  lemma {:induction false} NeverEndsOnLiteral(archive: seq<Byte>)
    requires GetLong(ReadPadded(archive, 0, 8)) >= TWO_31
    requires CodeAt(Body(archive), 0) < 256
    ensures Decode(archive) == Err(NeverEnds)
  {
    var body, fileSize := Body(archive), GetLong(ReadPadded(archive, 0, 8));
    var d := Step(Start, CodeAt(body, 0)).value;
    RunAfterFirst(body, fileSize, 1, d);
  }

  /** An archive recording 2^31 bytes and no codes: the decoder reads zero codes, the
      literal byte 0, forever. */
  lemma {:induction false} HugeSizeNeverEnds()
    ensures IsInt64(TWO_31) && Decode(PutLong(TWO_31)) == Err(NeverEnds)
  {
    var a := PutLong(TWO_31);
    assert ReadPadded(a, 0, 8) == a;
    GetPutLong(TWO_31);
    assert Body(a) == [];
    var zeros: seq<Byte> := [0, 0, 0, 0];
    assert ReadPadded(Body(a), 0, 4) == zeros;
    assert ToBigEndian(0, 4) == zeros;
    FromToBigEndian(0, 4);
    assert CodeAt(Body(a), 0) == 0;
    NeverEndsOnLiteral(a);
  }

  /** The decoder loop of `decompress`. */
  method DecodeBody(body: seq<Byte>, fileSize: int) returns (r: Result<seq<Byte>, Error>)
    ensures r == Run(body, fileSize, 0, Start)
  {
    var crtSize := 0;
    var table: seq<Phrase> := [];
    var lastEntry: Option<Phrase> := None;
    var out: seq<Byte> := [];
    var idx := 0;
    while crtSize < fileSize
      invariant crtSize == |out| < TWO_31
      invariant Decoder(table, lastEntry, out).Valid()
      invariant Run(body, fileSize, idx, Decoder(table, lastEntry, out)) == Run(body, fileSize, 0, Start)
      decreases TWO_31 - crtSize
    {
      var encode := CodeAt(body, idx);
      idx := idx + 1;
      var entry: Phrase;
      if encode < 256 {
        entry := [Truncate(encode)];
        crtSize := crtSize + 1;
      } else {
        if encode - 256 >= |table| {
          if lastEntry.None? {
            // `lastEntry.length` on null
            return Err(NullLastEntry);
          }
          entry := lastEntry.value + [lastEntry.value[0]];
        } else {
          entry := table[encode - 256];
        }
        crtSize := crtSize + |entry|;
      }
      out := out + entry;
      if lastEntry.Some? {
        table := table + [lastEntry.value + [entry[0]]];
      }
      lastEntry := Some(entry);
      if crtSize >= TWO_31 {
        // the `int` counter has wrapped negative
        return Err(if fileSize >= TWO_31 then NeverEnds else CounterWraps);
      }
    }
    return Ok(out);
  }

  /* ---------------------------------------------------------------------------------- */
  /* The codec calls                                                                      */

  /** `compress()`: refused outside Compress mode; otherwise encodes, writes the archive,
      returns the number of codes (not of bytes) and switches to Decompress mode. */
  method Compress(session: Compressor, input: seq<Byte>) returns (size: int, archive: seq<Byte>)
    requires |input| < TWO_31 - 256
    modifies session
    ensures old(session.crtMode) != Mode.Compress ==>
      size == 0 && archive == [] && session.crtMode == old(session.crtMode)
    ensures old(session.crtMode) == Mode.Compress ==>
      && session.crtMode == Mode.Decompress
      && exists codes: seq<int>, dict: seq<Phrase> ::
           && IsTrace(input, codes, dict)
           && CodesFitInt(codes)
           && archive == Archive(|input|, codes)
           && size == |codes|
    ensures old(session.crtMode) == Mode.Compress && |input| != 0 ==>
      session.compressRate == size as real / |input| as real
    ensures old(session.crtMode) != Mode.Compress || |input| == 0 ==>
      session.compressRate == old(session.compressRate)
  {
    var m := session.GetMode();
    if m != Mode.Compress {
      return 0, [];
    }
    var codes, dict := EncodeCodes(input);
    TraceBounds(input, codes, dict);
    var body := WriteCodes(codes);
    archive := PutLong(|input|) + body;
    size := |codes|;
    session.SetDecompressMode();
    if |input| != 0 {
      session.SetCompressRate(size as real / |input| as real);
    }
  }

  /** `decompress()`: refused outside Decompress mode; otherwise reads the size from the
      header and decodes the body. It returns the size recorded in the header. */
  method Decompress(session: Compressor, archive: seq<Byte>) returns (size: int, out: Result<seq<Byte>, Error>)
    modifies session
    ensures session.crtMode == old(session.crtMode)
    ensures session.crtMode != Mode.Decompress ==>
      size == 0 && out == Ok([]) && session.compressRate == old(session.compressRate)
    ensures session.crtMode == Mode.Decompress ==>
      && size == GetLong(ReadPadded(archive, 0, 8))
      && out == Decode(archive)
      && (size != 0 ==> session.compressRate == |archive| as real / size as real)
      && (size == 0 ==> session.compressRate == old(session.compressRate))
  {
    var m := session.GetMode();
    if m != Mode.Decompress {
      return 0, Ok([]);
    }
    size := GetLong(ReadPadded(archive, 0, 8));
    if size != 0 {
      session.SetCompressRate(|archive| as real / size as real);
    }
    out := DecodeBody(Body(archive), size);
  }

  /* ---------------------------------------------------------------------------------- */
  /* Lemmas                                                                               */

  lemma {:induction false} FlattenPrefixLength(ps: seq<Phrase>, j: nat)
    requires j <= |ps|
    requires forall k :: 0 <= k < |ps| ==> |ps[k]| >= 1
    ensures |Flatten(ps[..j])| + (|ps| - j) <= |Flatten(ps)|
  {
    if j < |ps| {
      var n := |ps| - 1;
      assert ps[..n][..j] == ps[..j];
      FlattenPrefixLength(ps[..n], j);
    } else {
      assert ps[..j] == ps;
    }
  }

  /** An encoder run emits at most one code per input byte, so for inputs shorter than
      2^31 - 256 bytes every code fits a Java int. */
  lemma {:induction false} TraceBounds(input: seq<Byte>, codes: seq<int>, dict: seq<Phrase>)
    requires IsTrace(input, codes, dict)
    ensures |codes| <= |input|
    ensures |input| < TWO_31 - 256 ==> CodesFitInt(codes)
  {
    var ps := Phrases(dict, codes);
    FlattenPrefixLength(ps, 0);
  }

  /** The decoder state after the first j codes of an encoder run: the table holds the
      first j - 1 dictionary entries, and the output the first j phrases. */
  ghost function After(input: seq<Byte>, codes: seq<int>, dict: seq<Phrase>, j: nat): Decoder
    requires IsTrace(input, codes, dict) && j <= |codes|
  {
    if j == 0 then Start
    else
      var ps := Phrases(dict, codes);
      Decoder(dict[..j - 1], Some(ps[j - 1]), Flatten(ps[..j]))
  }

  /** The state after j codes of an encoder run is a well-formed decoder state. */
  lemma {:induction false} AfterValid(input: seq<Byte>, codes: seq<int>, dict: seq<Phrase>, j: nat)
    requires IsTrace(input, codes, dict) && j <= |codes|
    ensures After(input, codes, dict, j).Valid()
  {
    if j > 0 {
      var ps := Phrases(dict, codes);
      var c := codes[j - 1];
      assert ps[j - 1] == PhraseOf(dict, c);
      assert c >= 256 ==> |dict[c - 256]| >= 2;
      var table := dict[..j - 1];
      forall k | 0 <= k < |table|
        ensures |table[k]| >= 1
      {
        assert table[k] == dict[k];
      }
    }
  }

  /** The phrase the decoder produces for code j is the phrase the encoder emitted it for. */
  lemma {:induction false} EntryLockstep(input: seq<Byte>, codes: seq<int>, dict: seq<Phrase>, j: nat)
    requires IsTrace(input, codes, dict) && j < |codes|
    ensures After(input, codes, dict, j).Valid()
    ensures Entry(After(input, codes, dict, j), codes[j]) == Ok(Phrases(dict, codes)[j])
  {
    AfterValid(input, codes, dict, j);
    var d := After(input, codes, dict, j);
    var ps := Phrases(dict, codes);
    var c := codes[j];
    assert ps[j] == PhraseOf(dict, c);
    if c < 256 {
      assert Entry(d, c) == Ok([Truncate(c)]);
    } else if j > 0 && c - 256 < j - 1 {
      assert d.table[c - 256] == dict[c - 256];
    } else {
      // the code of the entry the encoder created right after emitting code j - 1
      assert c - 256 == j - 1;
      assert d.lastEntry == Some(ps[j - 1]);
      assert ps[j - 1] == PhraseOf(dict, codes[j - 1]);
      assert ps[j] == dict[j - 1] == ps[j - 1] + [ps[j][0]];
    }
  }

  /** Lockstep: decoding code j from the state after j codes adds exactly the encoder's
      dictionary entry j - 1 to the table and writes exactly the phrase of code j, including
      when code j is the entry being defined (the "not yet in the table" case). */
  lemma {:induction false} StepLockstep(input: seq<Byte>, codes: seq<int>, dict: seq<Phrase>, j: nat)
    requires IsTrace(input, codes, dict) && j < |codes|
    ensures After(input, codes, dict, j).Valid()
    ensures Step(After(input, codes, dict, j), codes[j]) == Ok(After(input, codes, dict, j + 1))
  {
    var d := After(input, codes, dict, j);
    var p := Phrases(dict, codes)[j];
    EntryLockstep(input, codes, dict, j);
    TableLockstep(input, codes, dict, j);
    OutLockstep(input, codes, dict, j);
    var table := if d.lastEntry.Some? then d.table + [d.lastEntry.value + [p[0]]] else d.table;
    assert Step(d, codes[j]) == Ok(Decoder(table, Some(p), d.out + p));
  }

  /** The entry the decoder adds on code j is the encoder's entry j - 1. */
  lemma {:induction false} TableLockstep(input: seq<Byte>, codes: seq<int>, dict: seq<Phrase>, j: nat)
    requires IsTrace(input, codes, dict) && j < |codes|
    ensures
      var d := After(input, codes, dict, j);
      var p := Phrases(dict, codes)[j];
      && |p| >= 1
      && (if d.lastEntry.Some? then d.table + [d.lastEntry.value + [p[0]]] else d.table)
         == After(input, codes, dict, j + 1).table
  {
    var ps := Phrases(dict, codes);
    assert ps[j] == PhraseOf(dict, codes[j]);
    var d, d' := After(input, codes, dict, j), After(input, codes, dict, j + 1);
    assert d'.table == dict[..j];
    if j == 0 {
      assert d == Start;
    } else {
      assert d.table == dict[..j - 1] && d.lastEntry == Some(ps[j - 1]);
      assert ps[j - 1] == PhraseOf(dict, codes[j - 1]);
      assert dict[j - 1] == ps[j - 1] + [ps[j][0]];
      assert dict[..j] == dict[..j - 1] + [dict[j - 1]];
    }
  }

  /** The decoder writes phrase j after the first j phrases. */
  lemma {:induction false} OutLockstep(input: seq<Byte>, codes: seq<int>, dict: seq<Phrase>, j: nat)
    requires IsTrace(input, codes, dict) && j < |codes|
    ensures After(input, codes, dict, j).out + Phrases(dict, codes)[j]
      == After(input, codes, dict, j + 1).out
    ensures After(input, codes, dict, j + 1).lastEntry == Some(Phrases(dict, codes)[j])
  {
    var ps := Phrases(dict, codes);
    assert ps[..j + 1] == ps[..j] + [ps[j]];
    FlattenSnoc(ps[..j], ps[j]);
    if j == 0 {
      assert ps[..0] == [];
    }
  }

  /** The output after j codes is a prefix of the input: all of it after the last code. */
  lemma {:induction false} AfterOut(input: seq<Byte>, codes: seq<int>, dict: seq<Phrase>, j: nat)
    requires IsTrace(input, codes, dict) && j <= |codes|
    ensures After(input, codes, dict, j).Valid()
    ensures j < |codes| ==> |After(input, codes, dict, j).out| < |input|
    ensures j == |codes| ==> After(input, codes, dict, j).out == input
  {
    var ps := Phrases(dict, codes);
    AfterValid(input, codes, dict, j);
    FlattenPrefixLength(ps, j);
    if 0 < j == |codes| {
      assert ps[..j] == ps;
    }
  }

  /** From the state after j codes, the decoder loop produces exactly the input. */
  lemma {:induction false} RunFrom(input: seq<Byte>, codes: seq<int>, dict: seq<Phrase>, body: seq<Byte>, j: nat)
    requires IsTrace(input, codes, dict) && j <= |codes| && |input| < TWO_31
    requires forall k :: 0 <= k < |codes| ==> CodeAt(body, k) == codes[k]
    ensures After(input, codes, dict, j).Valid() && |After(input, codes, dict, j).out| < TWO_31
    ensures Run(body, |input|, j, After(input, codes, dict, j)) == Ok(input)
    decreases |codes| - j
  {
    AfterOut(input, codes, dict, j);
    if j < |codes| {
      StepLockstep(input, codes, dict, j);
      AfterOut(input, codes, dict, j + 1);
      RunFrom(input, codes, dict, body, j + 1);
    }
  }

  /** Decoding inverts encoding: the archive written for an encoder run decodes to the
      input, and every code of the run fits the 4-byte field it is written to. */
  lemma {:induction false} ArchiveRoundTrip(input: seq<Byte>, codes: seq<int>, dict: seq<Phrase>)
    requires IsTrace(input, codes, dict) && |input| < TWO_31 - 256
    ensures CodesFitInt(codes) && Decode(Archive(|input|, codes)) == Ok(input)
  {
    TraceBounds(input, codes, dict);
    var a := Archive(|input|, codes);
    assert ReadPadded(a, 0, 8) == PutLong(|input|);
    GetPutLong(|input|);
    assert Body(a) == CodeBytes(codes);
    forall k | 0 <= k < |codes|
      ensures CodeAt(Body(a), k) == codes[k]
    {
      CodeAtCodeBytes(codes, k);
    }
    RunFrom(input, codes, dict, Body(a), 0);
  }

  /** The byte-level decoder and the one as written part ways on the input 41 80 41 80:
      its codes 65, -128, 256 decode to the input, but the `String` table turns the entry
      for code 256 into 41 3F, so the decoder as written produces 41 80 41 3F. */
  lemma {:induction false} StringTableCorrupts()
    ensures IsTrace([0x41, 0x80, 0x41, 0x80], [65, -128, 256], [[0x41, 0x80], [0x80, 0x41]])
    ensures Decode(Archive(4, [65, -128, 256])) == Ok([0x41, 0x80, 0x41, 0x80])
    ensures
      var s1 := StepAsWritten(Start, 65);
      && s1.Ok?
      && var s2 := StepAsWritten(s1.value, -128);
      && s2.Ok?
      && var s3 := StepAsWritten(s2.value, 256);
      && s3.Ok? && s3.value.out == [0x41, 0x80, 0x41, 0x3F]
  {
    SmallTrace();
    ArchiveRoundTrip([0x41, 0x80, 0x41, 0x80], [65, -128, 256], [[0x41, 0x80], [0x80, 0x41]]);
    AsWrittenSteps();
  }

  /** The three passes of the decoder as written over the codes 65, -128, 256. */
  lemma {:induction false} AsWrittenSteps()
    ensures
      var s1 := StepAsWritten(Start, 65);
      && s1.Ok?
      && var s2 := StepAsWritten(s1.value, -128);
      && s2.Ok?
      && var s3 := StepAsWritten(s2.value, 256);
      && s3.Ok? && s3.value.out == [0x41, 0x80, 0x41, 0x3F]
  {
    var w: Phrase := [0x41];
    var e: Phrase := [0x80];
    var d1 := Decoder([], Some(w), w);
    assert Entry(Start, 65) == Ok(w);
    assert StepAsWritten(Start, 65) == Ok(d1);
    assert Truncate(-128) == 0x80;
    assert Entry(d1, -128) == Ok(e);
    assert Latin1Back(0x80) == 0x3F;
    var t: Phrase := [0x41, 0x3F];
    assert w + [0x3F] == t;
    var table: seq<Phrase> := d1.table + [d1.lastEntry.value + [Latin1Back(e[0])]];
    assert table == [t];
    assert StepAsWritten(d1, -128) == Ok(Decoder(table, Some(e), d1.out + e));
    var d2 := Decoder([t], Some(e), [0x41, 0x80]);
    assert d1.out + e == [0x41, 0x80];
    assert StepAsWritten(d1, -128) == Ok(d2);
    assert Entry(d2, 256) == Ok(t);
    assert d2.out + t == [0x41, 0x80, 0x41, 0x3F];
  }

  lemma {:induction false} SmallTrace()
    ensures IsTrace([0x41, 0x80, 0x41, 0x80], [65, -128, 256], [[0x41, 0x80], [0x80, 0x41]])
  {
    var codes, dict: seq<Phrase> := [65, -128, 256], [[0x41, 0x80], [0x80, 0x41]];
    SmallPhrases();
    assert dict[0] == PhraseOf(dict, codes[0]) + [PhraseOf(dict, codes[1])[0]];
    assert dict[1] == PhraseOf(dict, codes[1]) + [PhraseOf(dict, codes[2])[0]];
  }

  lemma {:induction false} SmallPhrases()
    ensures Flatten(Phrases([[0x41, 0x80], [0x80, 0x41]], [65, -128, 256])) == [0x41, 0x80, 0x41, 0x80]
  {
    var ps := Phrases([[0x41, 0x80], [0x80, 0x41]], [65, -128, 256]);
    assert ps == [[0x41], [0x80], [0x41, 0x80]];
    var p1: seq<Phrase> := [[0x41]];
    assert p1[..0] == [];
    assert Flatten(p1) == [0x41];
    assert ps[..2][..1] == p1;
    assert Flatten(ps[..2]) == [0x41, 0x80];
  }
}
