/**
 Document ingestion: the word-window chunker of `extract_pdf_chunks`, run over
 page texts the PDF library has already extracted, and the status a document
 row ends in after `ingest_document`.

 Each page is split on whitespace; words accumulate until their counted length
 (`len(w) + 1` per word) reaches `chunkSize`, when a chunk is emitted and its
 last `int(chunkOverlap / 5)` words are carried into the next one. What is left
 at the end of a page is kept only when it is longer than 50 characters.
 */
module Ingestion {
  import opened Wrappers
  import opened Text
  import opened Database

  const DefaultChunkSize: int := 1000
  const DefaultChunkOverlap: int := 200

  /** A page remainder is kept only when its stripped text is longer than this. */
  const MinTrailingLength: int := 50

  /** The arguments of `extract_pdf_chunks` other than the file. */
  datatype ChunkParams = ChunkParams(docId: string, docName: string, chunkSize: int, chunkOverlap: int)

  /** The parameters `ingest_document` uses: the default window and overlap. */
  function DefaultParams(docId: string, docName: string): ChunkParams {
    ChunkParams(docId, docName, DefaultChunkSize, DefaultChunkOverlap)
  }

  /** One emitted chunk: its id, text and metadata. */
  datatype Chunk = Chunk(
    id: string,
    text: string,
    docId: string,
    docName: string,
    page: int,
    chunkIndex: nat)

  /** `f"{doc_id}_chunk_{n}"` */
  function ChunkId(docId: string, n: nat): string {
    docId + "_chunk_" + NatToString(n)
  }

  /** Chunk ids of one document differ whenever their indices do. */
  lemma ChunkIdInjective(docId: string, m: nat, n: nat)
    requires ChunkId(docId, m) == ChunkId(docId, n)
    ensures m == n
  {
    PrefixCancel(docId + "_chunk_", NatToString(m), NatToString(n));
    NatToStringInjective(m, n);
  }

  /** `sum(len(w) + 1 for w in ws)`: the length the chunker counts for a word list. */
  function CountedLength(ws: seq<string>): nat {
    if |ws| == 0 then 0 else |ws[0]| + 1 + CountedLength(ws[1..])
  }

  lemma {:induction false} CountedLengthAppend(ws: seq<string>, w: string)
    ensures CountedLength(ws + [w]) == CountedLength(ws) + |w| + 1
  {
    if |ws| > 0 {
      assert (ws + [w])[1..] == ws[1..] + [w];
      CountedLengthAppend(ws[1..], w);
    }
  }

  /** The counted length of a non-empty word list is one more than the length of
      its space-joined text. */
  lemma {:induction false} CountedLengthJoin(ws: seq<string>)
    requires |ws| > 0
    ensures CountedLength(ws) == |JoinSpace(ws)| + 1
  {
    if |ws| > 1 {
      CountedLengthJoin(ws[1..]);
    }
  }

  /** `int(overlap / 5)`: Python's true division followed by truncation toward zero. */
  function OverlapWords(overlap: int): (k: int)
    ensures overlap >= 0 ==> 0 <= 5 * k <= overlap < 5 * k + 5
    ensures overlap < 0 ==> 5 * k - 5 < overlap <= 5 * k <= 0
  {
    if overlap >= 0 then overlap / 5 else -((-overlap) / 5)
  }

  /** `ws[-n:]` for `n > 0`: the last `n` words, or all of them when there are fewer. */
  function LastWords(ws: seq<string>, n: int): (r: seq<string>)
    requires n > 0
    ensures |r| == if n < |ws| then n else |ws|
  {
    if n >= |ws| then ws else ws[|ws| - n..]
  }

  /** `ws[-n:]` is the suffix of `ws` of that length. */
  lemma LastWordsSuffix(ws: seq<string>, n: int)
    requires n > 0
    ensures LastWords(ws, n) == ws[|ws| - |LastWords(ws, n)|..]
  {
    if n >= |ws| {
      assert ws[0..] == ws;
    }
  }

  /** The words a full chunk hands on to the next one. */
  function Carry(ws: seq<string>, overlap: int): seq<string> {
    var n := OverlapWords(overlap);
    if n > 0 then LastWords(ws, n) else []
  }

  // ---------------------------------------------------------------------------
  // The chunking loop

  /** Chunks emitted so far and the words gathered for the next one. */
  datatype PageState = PageState(chunks: seq<Chunk>, current: seq<string>)

  /** The chunk of index `n` on `page` with text `text`. */
  function MakeChunk(p: ChunkParams, page: int, n: nat, text: string): Chunk {
    Chunk(ChunkId(p.docId, n), text, p.docId, p.docName, page, n)
  }

  /** Appends the chunk made of `words`; its index is the number of chunks before it. */
  function Emit(p: ChunkParams, page: int, chunks: seq<Chunk>, words: seq<string>): seq<Chunk> {
    var n := |chunks|;
    chunks + [Chunk(ChunkId(p.docId, n), JoinSpace(words), p.docId, p.docName, page, n)]
  }

  /** One iteration of the word loop. */
  function AddWord(p: ChunkParams, page: int, st: PageState, word: string): PageState {
    var current := st.current + [word];
    if CountedLength(current) >= p.chunkSize then
      PageState(Emit(p, page, st.chunks, current), Carry(current, p.chunkOverlap))
    else
      PageState(st.chunks, current)
  }

  function WordLoop(p: ChunkParams, page: int, st: PageState, words: seq<string>): PageState
    decreases |words|
  {
    if |words| == 0 then st else WordLoop(p, page, AddWord(p, page, st, words[0]), words[1..])
  }

  /** The remainder check after a page's word loop. */
  function FlushPage(p: ChunkParams, page: int, st: PageState): seq<Chunk> {
    if |st.current| > 0 && |Strip(JoinSpace(st.current))| > MinTrailingLength then
      Emit(p, page, st.chunks, st.current)
    else
      st.chunks
  }

  /** Chunks one page; every page starts with nothing carried over. */
  function ChunkPage(p: ChunkParams, page: int, text: string, chunks: seq<Chunk>): seq<Chunk> {
    FlushPage(p, page, WordLoop(p, page, PageState(chunks, []), Split(text)))
  }

  /** Chunks `pages[k..]`, numbering pages from 1 as `enumerate(pdf.pages, start=1)` does. */
  function ChunkPages(p: ChunkParams, pages: seq<string>, k: nat, chunks: seq<Chunk>): seq<Chunk>
    requires k <= |pages|
    decreases |pages| - k
  {
    if k == |pages| then chunks
    else ChunkPages(p, pages, k + 1, ChunkPage(p, k + 1, pages[k], chunks))
  }

  /** The chunks `extract_pdf_chunks` returns for the given page texts. */
  function ChunkDocument(p: ChunkParams, pages: seq<string>): seq<Chunk> {
    ChunkPages(p, pages, 0, [])
  }

  // ---------------------------------------------------------------------------
  // What every chunk list produced by the loop satisfies

  /** `pw` holds the words of every page, in page order. */
  ghost predicate WordsOfPages(pages: seq<string>, pw: seq<seq<string>>) {
    |pw| == |pages| && forall k {:trigger pages[k]} :: 0 <= k < |pages| ==> pw[k] == Split(pages[k])
  }

  function PagesWords(pages: seq<string>): (pw: seq<seq<string>>)
    ensures WordsOfPages(pages, pw)
  {
    seq(|pages|, k requires 0 <= k < |pages| => Split(pages[k]))
  }

  /** `text` is the non-empty run `ws[a..b]` joined by single spaces. */
  predicate SliceText(ws: seq<string>, a: int, b: int, text: string) {
    0 <= a < b <= |ws| && text == JoinSpace(ws[a..b])
  }

  /** Where a chunk's words sit on its page: the half-open word range `[start, end)`. */
  datatype Span = Span(start: int, end: int)

  predicate InPage(ws: seq<string>, sp: Span) {
    0 <= sp.start <= sp.end <= |ws|
  }

  function Words(ws: seq<string>, sp: Span): seq<string>
    requires InPage(ws, sp)
  {
    ws[sp.start..sp.end]
  }

  /** The `i`-th chunk carries its index, its id and the caller's metadata, and its
      text is the non-empty word run `sp` of its page, either full or long enough to keep. */
  ghost predicate ChunkAt(p: ChunkParams, pw: seq<seq<string>>, c: Chunk, i: nat, sp: Span) {
    && c.chunkIndex == i
    && c.id == ChunkId(p.docId, i)
    && c.docId == p.docId
    && c.docName == p.docName
    && 1 <= c.page <= |pw|
    && InPage(pw[c.page - 1], sp) && sp.start < sp.end
    && c.text == JoinSpace(Words(pw[c.page - 1], sp))
    && (CountedLength(Words(pw[c.page - 1], sp)) >= p.chunkSize || |c.text| > MinTrailingLength)
  }

  /** The run `b` was gathered right after the full run `a` was emitted: it starts
      with the words `a` carried over. */
  ghost predicate Linked(p: ChunkParams, ws: seq<string>, a: Span, b: Span) {
    && InPage(ws, a) && InPage(ws, b)
    && CountedLength(Words(ws, a)) >= p.chunkSize
    && Carry(Words(ws, a), p.chunkOverlap) <= Words(ws, b)
  }

  /** `chunks` were emitted from the word runs `spans`, in page order, each chunk
      that follows another of the same page being linked to it. */
  ghost predicate Spanned(p: ChunkParams, pw: seq<seq<string>>, chunks: seq<Chunk>, spans: seq<Span>)
    decreases |chunks|
  {
    && |spans| == |chunks|
    && (|chunks| > 0 ==>
          var n := |chunks| - 1;
          && Spanned(p, pw, chunks[..n], spans[..n])
          && ChunkAt(p, pw, chunks[n], n, spans[n])
          && (n > 0 ==> chunks[n - 1].page <= chunks[n].page)
          && (n > 0 && chunks[n - 1].page == chunks[n].page ==>
                Linked(p, pw[chunks[n].page - 1], spans[n - 1], spans[n])))
  }

  /** No chunk emitted so far lies after `page`. */
  ghost predicate Below(chunks: seq<Chunk>, page: int) {
    |chunks| == 0 || chunks[|chunks| - 1].page <= page
  }

  /** The last chunk emitted so far, if it lies on `page`, is linked to the run `cur`. */
  ghost predicate LinkedToLast(p: ChunkParams, pw: seq<seq<string>>, page: int, chunks: seq<Chunk>, spans: seq<Span>, cur: Span)
    requires 1 <= page <= |pw| && |spans| == |chunks|
  {
    |chunks| > 0 && chunks[|chunks| - 1].page == page ==>
      Linked(p, pw[page - 1], spans[|spans| - 1], cur)
  }

  /** The state of the word loop of page `page` after `pos` of its words; the words
      gathered for the next chunk are the run `[s, pos)`. */
  ghost predicate LoopInv(p: ChunkParams, pw: seq<seq<string>>, page: int, pos: int, st: PageState, s: int, spans: seq<Span>) {
    && 1 <= page <= |pw|
    && Spanned(p, pw, st.chunks, spans)
    && Below(st.chunks, page)
    && 0 <= s <= pos <= |pw[page - 1]|
    && st.current == pw[page - 1][s..pos]
    && LinkedToLast(p, pw, page, st.chunks, spans, Span(s, pos))
  }

  /** A prefix of a prefix is a prefix. */
  lemma PrefixTrans<T>(a: seq<T>, b: seq<T>, c: seq<T>)
    requires a <= b && b <= c
    ensures a <= c
  {
    assert a == b[..|a|] && b == c[..|b|];
    assert c[..|b|][..|a|] == c[..|a|];
  }

  /** A slice grown by the element after it. */
  lemma SliceSnoc<T>(ws: seq<T>, s: int, pos: int)
    requires 0 <= s <= pos < |ws|
    ensures ws[s..pos] + [ws[pos]] == ws[s..pos + 1]
  {
  }

  /** Gathering one more word keeps the run linked to the last chunk. */
  lemma LinkedExtend(p: ChunkParams, ws: seq<string>, a: Span, s: int, pos: int)
    requires Linked(p, ws, a, Span(s, pos)) && pos < |ws|
    ensures Linked(p, ws, a, Span(s, pos + 1))
  {
    PrefixTrans(Carry(Words(ws, a), p.chunkOverlap), ws[s..pos], ws[s..pos + 1]);
  }

  lemma EmitSpanned(p: ChunkParams, pw: seq<seq<string>>, page: int, chunks: seq<Chunk>, spans: seq<Span>, a: int, b: int)
    requires 1 <= page <= |pw|
    requires Spanned(p, pw, chunks, spans) && Below(chunks, page)
    requires 0 <= a < b <= |pw[page - 1]|
    requires CountedLength(pw[page - 1][a..b]) >= p.chunkSize || |JoinSpace(pw[page - 1][a..b])| > MinTrailingLength
    requires LinkedToLast(p, pw, page, chunks, spans, Span(a, b))
    ensures Spanned(p, pw, Emit(p, page, chunks, pw[page - 1][a..b]), spans + [Span(a, b)])
    ensures Below(Emit(p, page, chunks, pw[page - 1][a..b]), page)
  {
    var r := Emit(p, page, chunks, pw[page - 1][a..b]);
    var sp := spans + [Span(a, b)];
    var n := |chunks|;
    assert r[..n] == chunks && sp[..n] == spans;
    assert ChunkAt(p, pw, r[n], n, sp[n]);
    if n > 0 {
      assert r[n - 1] == chunks[n - 1] && sp[n - 1] == spans[n - 1];
    }
  }

  /** `AddWord` when the extended run reaches the chunk size. */
  lemma AddWordFull(p: ChunkParams, page: int, st: PageState, w: string)
    requires CountedLength(st.current + [w]) >= p.chunkSize
    ensures AddWord(p, page, st, w) ==
      PageState(Emit(p, page, st.chunks, st.current + [w]), Carry(st.current + [w], p.chunkOverlap))
  {
  }

  /** `AddWord` when the extended run stays below the chunk size. */
  lemma AddWordShort(p: ChunkParams, page: int, st: PageState, w: string)
    requires CountedLength(st.current + [w]) < p.chunkSize
    ensures AddWord(p, page, st, w) == PageState(st.chunks, st.current + [w])
  {
  }

  /** What a full run hands on is its own tail. */
  lemma CarryRun(ws: seq<string>, a: int, b: int, overlap: int) returns (c: int)
    requires 0 <= a <= b <= |ws|
    ensures a <= c <= b && Carry(ws[a..b], overlap) == ws[c..b]
  {
    var carry := Carry(ws[a..b], overlap);
    c := b - |carry|;
    assert ws[a..b][|ws[a..b]| - |carry|..] == ws[c..b];
  }

  lemma FullStep(p: ChunkParams, pw: seq<seq<string>>, page: int, pos: int, st: PageState, s: int, spans: seq<Span>)
    returns (s': int, spans': seq<Span>)
    requires LoopInv(p, pw, page, pos, st, s, spans)
    requires pos < |pw[page - 1]|
    requires st.current + [pw[page - 1][pos]] == pw[page - 1][s..pos + 1]
    requires CountedLength(pw[page - 1][s..pos + 1]) >= p.chunkSize
    requires LinkedToLast(p, pw, page, st.chunks, spans, Span(s, pos + 1))
    ensures LoopInv(p, pw, page, pos + 1,
      PageState(Emit(p, page, st.chunks, pw[page - 1][s..pos + 1]), Carry(pw[page - 1][s..pos + 1], p.chunkOverlap)),
      s', spans')
  {
    var ws := pw[page - 1];
    EmitSpanned(p, pw, page, st.chunks, spans, s, pos + 1);
    s' := CarryRun(ws, s, pos + 1, p.chunkOverlap);
    spans' := spans + [Span(s, pos + 1)];
    assert Linked(p, ws, Span(s, pos + 1), Span(s', pos + 1));
  }

  lemma ShortStep(p: ChunkParams, pw: seq<seq<string>>, page: int, pos: int, st: PageState, s: int, spans: seq<Span>)
    requires LoopInv(p, pw, page, pos, st, s, spans)
    requires pos < |pw[page - 1]|
    requires st.current + [pw[page - 1][pos]] == pw[page - 1][s..pos + 1]
    requires LinkedToLast(p, pw, page, st.chunks, spans, Span(s, pos + 1))
    ensures LoopInv(p, pw, page, pos + 1, PageState(st.chunks, pw[page - 1][s..pos + 1]), s, spans)
  {
  }

  lemma AddWordStep(p: ChunkParams, pw: seq<seq<string>>, page: int, pos: int, st: PageState, s: int, spans: seq<Span>)
    returns (s': int, spans': seq<Span>)
    requires LoopInv(p, pw, page, pos, st, s, spans)
    requires pos < |pw[page - 1]|
    ensures LoopInv(p, pw, page, pos + 1, AddWord(p, page, st, pw[page - 1][pos]), s', spans')
  {
    var ws := pw[page - 1];
    assert st.current + [ws[pos]] == ws[s..pos + 1];
    if |st.chunks| > 0 && st.chunks[|st.chunks| - 1].page == page {
      LinkedExtend(p, ws, spans[|spans| - 1], s, pos);
    }
    if CountedLength(ws[s..pos + 1]) >= p.chunkSize {
      AddWordFull(p, page, st, ws[pos]);
      s', spans' := FullStep(p, pw, page, pos, st, s, spans);
    } else {
      AddWordShort(p, page, st, ws[pos]);
      ShortStep(p, pw, page, pos, st, s, spans);
      s', spans' := s, spans;
    }
  }

  lemma {:induction false} WordLoopRun(p: ChunkParams, pw: seq<seq<string>>, page: int, pos: int, st: PageState, s: int, spans: seq<Span>)
    returns (s': int, spans': seq<Span>)
    requires LoopInv(p, pw, page, pos, st, s, spans)
    ensures LoopInv(p, pw, page, |pw[page - 1]|, WordLoop(p, page, st, pw[page - 1][pos..]), s', spans')
    decreases |pw[page - 1]| - pos
  {
    var ws := pw[page - 1];
    if pos == |ws| {
      assert ws[pos..] == [];
      s', spans' := s, spans;
    } else {
      var next := AddWord(p, page, st, ws[pos]);
      var s1, spans1 := AddWordStep(p, pw, page, pos, st, s, spans);
      assert ws[pos..][0] == ws[pos] && ws[pos..][1..] == ws[pos + 1..];
      s', spans' := WordLoopRun(p, pw, page, pos + 1, next, s1, spans1);
    }
  }

  lemma FlushSpanned(p: ChunkParams, pw: seq<seq<string>>, page: int, st: PageState, s: int, spans: seq<Span>)
    returns (spans': seq<Span>)
    requires 1 <= page <= |pw|
    requires LoopInv(p, pw, page, |pw[page - 1]|, st, s, spans)
    ensures Spanned(p, pw, FlushPage(p, page, st), spans')
    ensures Below(FlushPage(p, page, st), page)
  {
    var ws := pw[page - 1];
    if |st.current| > 0 && |Strip(JoinSpace(st.current))| > MinTrailingLength {
      EmitSpanned(p, pw, page, st.chunks, spans, s, |ws|);
      spans' := spans + [Span(s, |ws|)];
    } else {
      spans' := spans;
    }
  }

  /** Chunking page `k + 1` keeps the invariant. */
  lemma PageSpanned(p: ChunkParams, pages: seq<string>, pw: seq<seq<string>>, k: nat, chunks: seq<Chunk>, spans: seq<Span>)
    returns (spans': seq<Span>)
    requires k < |pages| == |pw| && pw[k] == Split(pages[k])
    requires Spanned(p, pw, chunks, spans) && Below(chunks, k)
    ensures Spanned(p, pw, ChunkPage(p, k + 1, pages[k], chunks), spans')
    ensures Below(ChunkPage(p, k + 1, pages[k], chunks), k + 1)
  {
    var ws := pw[k];
    var st := PageState(chunks, []);
    assert ChunkPage(p, k + 1, pages[k], chunks) == FlushPage(p, k + 1, WordLoop(p, k + 1, st, ws));
    assert LoopInv(p, pw, k + 1, 0, st, 0, spans);
    var s1, spans1 := WordLoopRun(p, pw, k + 1, 0, st, 0, spans);
    assert ws[0..] == ws;
    spans' := FlushSpanned(p, pw, k + 1, WordLoop(p, k + 1, st, ws), s1, spans1);
  }

  lemma ChunkPagesStep(p: ChunkParams, pages: seq<string>, k: nat, chunks: seq<Chunk>)
    requires k < |pages|
    ensures ChunkPages(p, pages, k, chunks) == ChunkPages(p, pages, k + 1, ChunkPage(p, k + 1, pages[k], chunks))
  {
  }

  lemma NextPage(p: ChunkParams, pages: seq<string>, pw: seq<seq<string>>, k: nat, chunks: seq<Chunk>, spans: seq<Span>)
    returns (chunks': seq<Chunk>, spans': seq<Span>)
    requires k < |pages| && WordsOfPages(pages, pw)
    requires Spanned(p, pw, chunks, spans) && Below(chunks, k)
    ensures ChunkPages(p, pages, k, chunks) == ChunkPages(p, pages, k + 1, chunks')
    ensures Spanned(p, pw, chunks', spans') && Below(chunks', k + 1)
  {
    ChunkPagesStep(p, pages, k, chunks);
    spans' := PageSpanned(p, pages, pw, k, chunks, spans);
    chunks' := ChunkPage(p, k + 1, pages[k], chunks);
  }

  lemma {:induction false} PagesSpanned(p: ChunkParams, pages: seq<string>, pw: seq<seq<string>>, k: nat, chunks: seq<Chunk>, spans: seq<Span>)
    returns (spans': seq<Span>)
    requires k <= |pages| && WordsOfPages(pages, pw)
    requires Spanned(p, pw, chunks, spans) && Below(chunks, k)
    ensures Spanned(p, pw, ChunkPages(p, pages, k, chunks), spans')
    decreases |pages| - k, 1
  {
    if k < |pages| {
      spans' := PagesSpannedStep(p, pages, pw, k, chunks, spans);
    } else {
      spans' := spans;
    }
  }

  lemma {:induction false} PagesSpannedStep(p: ChunkParams, pages: seq<string>, pw: seq<seq<string>>, k: nat, chunks: seq<Chunk>, spans: seq<Span>)
    returns (spans': seq<Span>)
    requires k < |pages| && WordsOfPages(pages, pw)
    requires Spanned(p, pw, chunks, spans) && Below(chunks, k)
    ensures Spanned(p, pw, ChunkPages(p, pages, k, chunks), spans')
    decreases |pages| - k, 0
  {
    var chunks1, spans1 := NextPage(p, pages, pw, k, chunks, spans);
    spans' := PagesSpanned(p, pages, pw, k + 1, chunks1, spans1);
  }

  lemma ChunkDocumentSpanned(p: ChunkParams, pages: seq<string>, pw: seq<seq<string>>) returns (spans: seq<Span>)
    requires WordsOfPages(pages, pw)
    ensures Spanned(p, pw, ChunkDocument(p, pages), spans)
  {
    spans := PagesSpanned(p, pages, pw, 0, [], []);
  }

  /** The `i`-th chunk of a spanned list sits on its span. */
  lemma {:induction false} SpannedAt(p: ChunkParams, pw: seq<seq<string>>, r: seq<Chunk>, spans: seq<Span>, i: nat)
    requires Spanned(p, pw, r, spans) && i < |r|
    ensures ChunkAt(p, pw, r[i], i, spans[i])
    decreases |r|
  {
    var n := |r| - 1;
    if i < n {
      SpannedAt(p, pw, r[..n], spans[..n], i);
      assert r[..n][i] == r[i] && spans[..n][i] == spans[i];
    }
  }

  /** Pages never decrease along a spanned list. */
  lemma {:induction false} SpannedOrdered(p: ChunkParams, pw: seq<seq<string>>, r: seq<Chunk>, spans: seq<Span>, i: nat, j: nat)
    requires Spanned(p, pw, r, spans) && i < j < |r|
    ensures r[i].page <= r[j].page
    decreases |r|
  {
    var n := |r| - 1;
    assert r[..n][n - 1] == r[n - 1];
    if j < n {
      SpannedOrdered(p, pw, r[..n], spans[..n], i, j);
      assert r[..n][i] == r[i] && r[..n][j] == r[j];
    } else if i < n - 1 {
      SpannedOrdered(p, pw, r[..n], spans[..n], i, n - 1);
      assert r[..n][i] == r[i];
    }
  }

  /** Consecutive chunks of one page are linked. */
  lemma {:induction false} SpannedLinked(p: ChunkParams, pw: seq<seq<string>>, r: seq<Chunk>, spans: seq<Span>, i: nat)
    requires Spanned(p, pw, r, spans) && i + 1 < |r| && r[i].page == r[i + 1].page
    ensures 1 <= r[i].page <= |pw| && Linked(p, pw[r[i].page - 1], spans[i], spans[i + 1])
    decreases |r|
  {
    var n := |r| - 1;
    if i + 1 < n {
      SpannedLinked(p, pw, r[..n], spans[..n], i);
      assert r[..n][i] == r[i] && r[..n][i + 1] == r[i + 1];
      assert spans[..n][i] == spans[i] && spans[..n][i + 1] == spans[i + 1];
    } else {
      SpannedAt(p, pw, r, spans, i + 1);
    }
  }

  /** `text` is the non-empty run `a..b` of the words of `pageText`, joined by single spaces. */
  predicate RunOfPage(pageText: string, a: int, b: int, text: string) {
    SliceText(Split(pageText), a, b, text)
  }

  /** `text` is some non-empty run of the words of `pageText`. */
  ghost predicate RunOf(pageText: string, text: string) {
    exists a, b :: RunOfPage(pageText, a, b, text)
  }

  /** The chunk's text is a run of the words of the page it names. */
  ghost predicate FromPage(pages: seq<string>, c: Chunk) {
    1 <= c.page <= |pages| && RunOf(pages[c.page - 1], c.text)
  }

  /** Splitting a chunk's text gives back the words of its span, and the chunk met a flush condition. */
  lemma ChunkWords(p: ChunkParams, pw: seq<seq<string>>, c: Chunk, i: nat, sp: Span)
    requires ChunkAt(p, pw, c, i, sp) && AllWords(pw[c.page - 1])
    ensures Split(c.text) == Words(pw[c.page - 1], sp)
    ensures |c.text| + 1 >= p.chunkSize || |c.text| > MinTrailingLength
  {
    SliceSplitJoin(pw[c.page - 1], sp.start, sp.end);
    CountedLengthJoin(Words(pw[c.page - 1], sp));
  }

  lemma SpanRun(pageText: string, ws: seq<string>, sp: Span, text: string)
    requires ws == Split(pageText) && InPage(ws, sp) && sp.start < sp.end && text == JoinSpace(Words(ws, sp))
    ensures RunOf(pageText, text)
  {
    assert RunOfPage(pageText, sp.start, sp.end, text);
  }

  /** Every page's word list is made of words. */
  ghost predicate AllPagesWords(pw: seq<seq<string>>) {
    forall k :: 0 <= k < |pw| ==> AllWords(pw[k])
  }

  lemma WordsOfPagesAreWords(pages: seq<string>, pw: seq<seq<string>>)
    requires WordsOfPages(pages, pw)
    ensures AllPagesWords(pw)
  {
    forall k | 0 <= k < |pw| ensures AllWords(pw[k]) {
      assert pw[k] == Split(pages[k]);
    }
  }

  /** Indices count the chunks, ids follow the indices and the metadata is the caller's. */
  lemma SpannedNumbered(p: ChunkParams, pw: seq<seq<string>>, r: seq<Chunk>, spans: seq<Span>)
    requires Spanned(p, pw, r, spans)
    ensures forall i :: 0 <= i < |r| ==>
      && r[i].chunkIndex == i
      && r[i].id == ChunkId(p.docId, i)
      && r[i].docId == p.docId
      && r[i].docName == p.docName
  {
    forall i | 0 <= i < |r|
      ensures r[i].chunkIndex == i && r[i].id == ChunkId(p.docId, i)
      ensures r[i].docId == p.docId && r[i].docName == p.docName
    {
      SpannedAt(p, pw, r, spans, i);
    }
  }

  /** Every chunk is a run of words of the page it names. */
  lemma SpannedFromPage(p: ChunkParams, pages: seq<string>, pw: seq<seq<string>>, r: seq<Chunk>, spans: seq<Span>)
    requires WordsOfPages(pages, pw) && Spanned(p, pw, r, spans)
    ensures forall i :: 0 <= i < |r| ==> FromPage(pages, r[i])
  {
    forall i | 0 <= i < |r|
      ensures FromPage(pages, r[i])
    {
      SpannedAt(p, pw, r, spans, i);
      var sp := spans[i];
      SpanRun(pages[r[i].page - 1], pw[r[i].page - 1], sp, r[i].text);
    }
  }

  lemma ChunkSize(p: ChunkParams, pw: seq<seq<string>>, c: Chunk, i: nat, sp: Span)
    requires ChunkAt(p, pw, c, i, sp)
    ensures |c.text| + 1 >= p.chunkSize || |c.text| > MinTrailingLength
  {
    CountedLengthJoin(Words(pw[c.page - 1], sp));
  }

  /** Every chunk was emitted full or is longer than the trailing minimum. */
  lemma SpannedSized(p: ChunkParams, pw: seq<seq<string>>, r: seq<Chunk>, spans: seq<Span>)
    requires Spanned(p, pw, r, spans)
    ensures forall i :: 0 <= i < |r| ==> |r[i].text| + 1 >= p.chunkSize || |r[i].text| > MinTrailingLength
  {
    forall i | 0 <= i < |r|
      ensures |r[i].text| + 1 >= p.chunkSize || |r[i].text| > MinTrailingLength
    {
      SpannedAt(p, pw, r, spans, i);
      ChunkSize(p, pw, r[i], i, spans[i]);
    }
  }

  /** Pages never decrease along the list. */
  lemma SpannedPagesOrdered(p: ChunkParams, pw: seq<seq<string>>, r: seq<Chunk>, spans: seq<Span>)
    requires Spanned(p, pw, r, spans)
    ensures forall i, j :: 0 <= i < j < |r| ==> r[i].page <= r[j].page
  {
    forall i, j | 0 <= i < j < |r|
      ensures r[i].page <= r[j].page
    {
      SpannedOrdered(p, pw, r, spans, i, j);
    }
  }

  lemma CarryPrefix(ws: seq<string>, a: Span, b: Span, overlap: int, t1: string, t2: string)
    requires AllWords(ws) && InPage(ws, a) && InPage(ws, b)
    requires t1 == JoinSpace(Words(ws, a)) && t2 == JoinSpace(Words(ws, b))
    requires Carry(Words(ws, a), overlap) <= Words(ws, b)
    ensures Carry(Split(t1), overlap) <= Split(t2)
  {
    SliceSplitJoin(ws, a.start, a.end);
    SliceSplitJoin(ws, b.start, b.end);
  }

  /** Two linked chunks: the first was full and the second starts with its carried words. */
  lemma LinkedChunks(p: ChunkParams, pw: seq<seq<string>>, c: Chunk, d: Chunk, i: nat, a: Span, b: Span)
    requires ChunkAt(p, pw, c, i, a) && ChunkAt(p, pw, d, i + 1, b) && c.page == d.page
    requires AllWords(pw[c.page - 1]) && Linked(p, pw[c.page - 1], a, b)
    ensures |c.text| + 1 >= p.chunkSize
    ensures Carry(Split(c.text), p.chunkOverlap) <= Split(d.text)
  {
    CountedLengthJoin(Words(pw[c.page - 1], a));
    CarryPrefix(pw[c.page - 1], a, b, p.chunkOverlap, c.text, d.text);
  }

  /** A chunk that follows another on the same page starts with the other's carried words. */
  lemma SpannedCarry(p: ChunkParams, pw: seq<seq<string>>, r: seq<Chunk>, spans: seq<Span>)
    requires AllPagesWords(pw) && Spanned(p, pw, r, spans)
    ensures forall i :: 0 <= i < |r| - 1 && r[i].page == r[i + 1].page ==>
      && |r[i].text| + 1 >= p.chunkSize
      && Carry(Split(r[i].text), p.chunkOverlap) <= Split(r[i + 1].text)
  {
    forall i | 0 <= i < |r| - 1 && r[i].page == r[i + 1].page
      ensures |r[i].text| + 1 >= p.chunkSize
      ensures Carry(Split(r[i].text), p.chunkOverlap) <= Split(r[i + 1].text)
    {
      SpannedCarryAt(p, pw, r, spans, i);
    }
  }

  lemma SpannedCarryAt(p: ChunkParams, pw: seq<seq<string>>, r: seq<Chunk>, spans: seq<Span>, i: nat)
    requires AllPagesWords(pw) && Spanned(p, pw, r, spans)
    requires i + 1 < |r| && r[i].page == r[i + 1].page
    ensures |r[i].text| + 1 >= p.chunkSize
    ensures Carry(Split(r[i].text), p.chunkOverlap) <= Split(r[i + 1].text)
  {
    SpannedLinked(p, pw, r, spans, i);
    SpannedAt(p, pw, r, spans, i);
    SpannedAt(p, pw, r, spans, i + 1);
    LinkedChunks(p, pw, r[i], r[i + 1], i, spans[i], spans[i + 1]);
  }

  /** No two chunks share an id. */
  lemma SpannedIdsDistinct(p: ChunkParams, pw: seq<seq<string>>, r: seq<Chunk>, spans: seq<Span>)
    requires Spanned(p, pw, r, spans)
    ensures forall i, j :: 0 <= i < j < |r| ==> r[i].id != r[j].id
  {
    SpannedNumbered(p, pw, r, spans);
    forall i, j | 0 <= i < j < |r|
      ensures r[i].id != r[j].id
    {
      if r[i].id == r[j].id {
        ChunkIdInjective(p.docId, i, j);
      }
    }
  }

  /** What the chunk list of a document satisfies: indices run 0, 1, 2, ... in emission
      order and give the ids; the metadata is the caller's; every chunk is a run of words
      of one page and pages never decrease; every chunk was emitted full or is longer than
      50 characters; a chunk that follows another on the same page starts with the other's
      carried words; and no two chunks share an id. */
  ghost predicate ChunkListFacts(p: ChunkParams, pages: seq<string>, r: seq<Chunk>) {
    && (forall i :: 0 <= i < |r| ==>
          && r[i].chunkIndex == i
          && r[i].id == ChunkId(p.docId, i)
          && r[i].docId == p.docId
          && r[i].docName == p.docName)
    && (forall i :: 0 <= i < |r| ==> FromPage(pages, r[i]))
    && (forall i :: 0 <= i < |r| ==> |r[i].text| + 1 >= p.chunkSize || |r[i].text| > MinTrailingLength)
    && (forall i, j :: 0 <= i < j < |r| ==> r[i].page <= r[j].page)
    && (forall i :: 0 <= i < |r| - 1 && r[i].page == r[i + 1].page ==>
          && |r[i].text| + 1 >= p.chunkSize
          && Carry(Split(r[i].text), p.chunkOverlap) <= Split(r[i + 1].text))
    && (forall i, j :: 0 <= i < j < |r| ==> r[i].id != r[j].id)
  }

  lemma SpannedFacts(p: ChunkParams, pages: seq<string>, pw: seq<seq<string>>, r: seq<Chunk>, spans: seq<Span>)
    requires WordsOfPages(pages, pw) && Spanned(p, pw, r, spans)
    ensures ChunkListFacts(p, pages, r)
  {
    WordsOfPagesAreWords(pages, pw);
    SpannedNumbered(p, pw, r, spans);
    SpannedFromPage(p, pages, pw, r, spans);
    SpannedSized(p, pw, r, spans);
    SpannedPagesOrdered(p, pw, r, spans);
    SpannedCarry(p, pw, r, spans);
    SpannedIdsDistinct(p, pw, r, spans);
  }

  /** `extract_pdf_chunks`' chunk list satisfies the facts above, for any parameters. */
  lemma ChunkDocumentProperties(p: ChunkParams, pages: seq<string>)
    ensures ChunkListFacts(p, pages, ChunkDocument(p, pages))
  {
    var pw := PagesWords(pages);
    var spans := ChunkDocumentSpanned(p, pages, pw);
    SpannedFacts(p, pages, pw, ChunkDocument(p, pages), spans);
  }

  /** A page with no words adds no chunk. */
  lemma BlankPageAddsNothing(p: ChunkParams, page: int, text: string, chunks: seq<Chunk>)
    requires forall i :: 0 <= i < |text| ==> IsSpace(text[i])
    ensures ChunkPage(p, page, text, chunks) == chunks
  {
    SplitEmpty(text);
  }

  /** When a page ends exactly on a full chunk, the carried words alone are emitted
      again as the page's last chunk: a one-word page whose word fills a chunk and is
      longer than 50 characters yields that word twice. */
  lemma CarryReEmitted(p: ChunkParams, w: string)
    requires IsWord(w) && |w| > MinTrailingLength
    requires |w| + 1 >= p.chunkSize && OverlapWords(p.chunkOverlap) > 0
    ensures ChunkDocument(p, [w]) == [
      Chunk(ChunkId(p.docId, 0), w, p.docId, p.docName, 1, 0),
      Chunk(ChunkId(p.docId, 1), w, p.docId, p.docName, 1, 1)]
  {
    var c0 := Chunk(ChunkId(p.docId, 0), w, p.docId, p.docName, 1, 0);
    var st0 := PageState([], []);
    // the one word fills a chunk, which is emitted and then carried whole
    assert JoinSpace([w]) == w;
    assert st0.current + [w] == [w];
    CountedLengthAppend([], w);
    AddWordFull(p, 1, st0, w);
    var st1 := AddWord(p, 1, st0, w);
    assert st1 == PageState([c0], [w]);
    // the loop ends after the one word
    SplitWord(w);
    assert [w][1..] == [];
    assert WordLoop(p, 1, st0, Split(w)) == st1;
    // the carried word is long enough to be flushed again
    StripJoin([w]);
    assert ChunkPage(p, 1, w, []) == Emit(p, 1, [c0], [w]);
    ChunkPagesStep(p, [w], 0, []);
  }

  // ---------------------------------------------------------------------------
  // How the chunks of a page tile its words

  /** The first word of the run gathered after the full runs `full`: word 0 on a
      fresh page, otherwise the first word the last full run carried over. */
  function RunStart(p: ChunkParams, ws: seq<string>, full: seq<Span>): int
    requires |full| > 0 ==> InPage(ws, full[|full| - 1])
  {
    if |full| == 0 then 0
    else
      var last := full[|full| - 1];
      last.end - |Carry(Words(ws, last), p.chunkOverlap)|
  }

  /** The first word no full run has taken yet. */
  function FreshStart(full: seq<Span>): int {
    if |full| == 0 then 0 else full[|full| - 1].end
  }

  /** The run starting at word `s` stayed below the chunk size with every word from
      `f` up to `e`: none of them completed it. */
  ghost predicate ShortBetween(p: ChunkParams, ws: seq<string>, s: int, f: int, e: int) {
    forall b :: f < b <= e && 0 <= s <= b <= |ws| ==> CountedLength(ws[s..b]) < p.chunkSize
  }

  /** `full` are the runs of a page emitted full, in order: each starts at the words
      the previous one carried over (the first at word 0), takes at least one new
      word, and ends at the first new word with which its counted length reaches the
      chunk size. */
  ghost predicate FullRuns(p: ChunkParams, ws: seq<string>, full: seq<Span>)
    decreases |full|
  {
    |full| > 0 ==>
      var n := |full| - 1;
      var sp := full[n];
      && FullRuns(p, ws, full[..n])
      && InPage(ws, sp)
      && sp.start == RunStart(p, ws, full[..n])
      && FreshStart(full[..n]) < sp.end
      && CountedLength(Words(ws, sp)) >= p.chunkSize
      && ShortBetween(p, ws, sp.start, FreshStart(full[..n]), sp.end - 1)
  }

  /** The run after the full runs starts no later than the first fresh word. */
  lemma {:induction false} RunStartBounds(p: ChunkParams, ws: seq<string>, full: seq<Span>)
    requires FullRuns(p, ws, full)
    ensures 0 <= RunStart(p, ws, full) <= FreshStart(full) <= |ws|
  {
    if |full| > 0 {
      var last := full[|full| - 1];
      assert |Carry(Words(ws, last), p.chunkOverlap)| <= |Words(ws, last)|;
    }
  }

  /** The chunks of the full runs `full` of page `page`, indexed from `base`. */
  ghost function FullChunks(p: ChunkParams, page: int, base: nat, ws: seq<string>, full: seq<Span>): (r: seq<Chunk>)
    requires FullRuns(p, ws, full)
    ensures |r| == |full|
    decreases |full|
  {
    if |full| == 0 then []
    else
      var n := |full| - 1;
      FullChunks(p, page, base, ws, full[..n]) + [MakeChunk(p, page, base + n, JoinSpace(Words(ws, full[n])))]
  }

  /** The chunk made of the remainder `rest` with index `n`, when the remainder is
      kept: it has words and its text is longer than 50 characters. */
  function RestChunks(p: ChunkParams, page: int, n: nat, ws: seq<string>, rest: Span): seq<Chunk>
    requires InPage(ws, rest)
  {
    var text := JoinSpace(Words(ws, rest));
    if rest.start < rest.end && |Strip(text)| > MinTrailingLength then [MakeChunk(p, page, n, text)] else []
  }

  /** `full` and `rest` tile the words `ws` of a page: the full runs in order, then
      the remainder, from the words the last full run carried over to the end of the
      page, which no word after the last full run completed. */
  ghost predicate Tiling(p: ChunkParams, ws: seq<string>, full: seq<Span>, rest: Span) {
    && FullRuns(p, ws, full)
    && 0 <= RunStart(p, ws, full) <= FreshStart(full) <= |ws|
    && rest == Span(RunStart(p, ws, full), |ws|)
    && ShortBetween(p, ws, rest.start, FreshStart(full), |ws|)
  }

  /** Every word before the first fresh one lies in some full run. */
  lemma {:induction false} FullRunsCover(p: ChunkParams, ws: seq<string>, full: seq<Span>, k: int) returns (j: nat)
    requires FullRuns(p, ws, full) && 0 <= k < FreshStart(full)
    ensures j < |full| && full[j].start <= k < full[j].end
    decreases |full|
  {
    var n := |full| - 1;
    var prev := full[..n];
    RunStartBounds(p, ws, prev);
    if k < FreshStart(prev) {
      j := FullRunsCover(p, ws, prev, k);
      assert prev[j] == full[j];
    } else {
      j := n;
    }
  }

  /** The tiling leaves no word out: each is in a full run or in the remainder. */
  lemma {:induction false} TilingCovers(p: ChunkParams, ws: seq<string>, full: seq<Span>, rest: Span, k: int)
    requires Tiling(p, ws, full, rest) && 0 <= k < |ws|
    ensures (exists j :: 0 <= j < |full| && full[j].start <= k < full[j].end) || rest.start <= k
  {
    if k < FreshStart(full) {
      var j := FullRunsCover(p, ws, full, k);
    }
  }

  /** The word loop of page `page` after `pos` words, with `full` the runs emitted so
      far after the chunks `chunks` that came before the page. */
  ghost predicate TileInv(p: ChunkParams, page: int, ws: seq<string>, chunks: seq<Chunk>, pos: int, st: PageState, full: seq<Span>) {
    && FullRuns(p, ws, full)
    && 0 <= RunStart(p, ws, full) <= FreshStart(full) <= pos <= |ws|
    && st.chunks == chunks + FullChunks(p, page, |chunks|, ws, full)
    && st.current == ws[RunStart(p, ws, full)..pos]
    && ShortBetween(p, ws, RunStart(p, ws, full), FreshStart(full), pos)
  }

  /** Closing the run `[RunStart, e)` adds a full run, whose carried words start the next run. */
  lemma {:induction false} FullRunsSnoc(p: ChunkParams, ws: seq<string>, full: seq<Span>, e: int) returns (c: int)
    requires FullRuns(p, ws, full)
    requires 0 <= RunStart(p, ws, full) <= FreshStart(full) < e <= |ws|
    requires CountedLength(ws[RunStart(p, ws, full)..e]) >= p.chunkSize
    requires ShortBetween(p, ws, RunStart(p, ws, full), FreshStart(full), e - 1)
    ensures FullRuns(p, ws, full + [Span(RunStart(p, ws, full), e)])
    ensures RunStart(p, ws, full) <= c <= e
    ensures RunStart(p, ws, full + [Span(RunStart(p, ws, full), e)]) == c
    ensures Carry(ws[RunStart(p, ws, full)..e], p.chunkOverlap) == ws[c..e]
    ensures FreshStart(full + [Span(RunStart(p, ws, full), e)]) == e
  {
    var s := RunStart(p, ws, full);
    var full' := full + [Span(s, e)];
    assert full'[..|full|] == full && full'[|full|] == Span(s, e);
    c := CarryRun(ws, s, e, p.chunkOverlap);
  }

  /** The chunks of one more full run. */
  lemma {:induction false} FullChunksSnoc(p: ChunkParams, page: int, base: nat, ws: seq<string>, full: seq<Span>, sp: Span)
    requires FullRuns(p, ws, full) && FullRuns(p, ws, full + [sp])
    ensures FullChunks(p, page, base, ws, full + [sp]) ==
      FullChunks(p, page, base, ws, full) + [MakeChunk(p, page, base + |full|, JoinSpace(Words(ws, sp)))]
  {
    var full' := full + [sp];
    assert full'[..|full|] == full && full'[|full|] == sp;
  }

  /** Emitting after the chunks `chunks + f` appends to `f`. */
  lemma EmitAfter(p: ChunkParams, page: int, chunks: seq<Chunk>, f: seq<Chunk>, words: seq<string>, n: nat)
    requires n == |chunks| + |f|
    ensures Emit(p, page, chunks + f, words) == chunks + (f + [MakeChunk(p, page, n, JoinSpace(words))])
  {
  }

  /** A word that completes the run closes a new full run. */
  lemma {:induction false} TileFull(p: ChunkParams, page: int, ws: seq<string>, chunks: seq<Chunk>, pos: int, st: PageState, full: seq<Span>)
    returns (full': seq<Span>)
    requires TileInv(p, page, ws, chunks, pos, st, full) && pos < |ws|
    requires CountedLength(ws[RunStart(p, ws, full)..pos + 1]) >= p.chunkSize
    ensures TileInv(p, page, ws, chunks, pos + 1, AddWord(p, page, st, ws[pos]), full')
  {
    var s := RunStart(p, ws, full);
    var sp := Span(s, pos + 1);
    var cur := ws[s..pos + 1];
    var c := FullRunsSnoc(p, ws, full, pos + 1);
    full' := full + [sp];
    FullChunksSnoc(p, page, |chunks|, ws, full, sp);
    SliceSnoc(ws, s, pos);
    AddWordFull(p, page, st, ws[pos]);
    EmitAfter(p, page, chunks, FullChunks(p, page, |chunks|, ws, full), cur, |chunks| + |full|);
  }

  /** One more word that leaves the run short. */
  lemma {:induction false} ShortExtend(p: ChunkParams, ws: seq<string>, s: int, f: int, e: int)
    requires 0 <= s <= e < |ws| && ShortBetween(p, ws, s, f, e)
    requires CountedLength(ws[s..e + 1]) < p.chunkSize
    ensures ShortBetween(p, ws, s, f, e + 1)
  {
  }

  /** A word that leaves the run short extends it. */
  lemma {:induction false} TileShort(p: ChunkParams, page: int, ws: seq<string>, chunks: seq<Chunk>, pos: int, st: PageState, full: seq<Span>)
    requires TileInv(p, page, ws, chunks, pos, st, full) && pos < |ws|
    requires CountedLength(ws[RunStart(p, ws, full)..pos + 1]) < p.chunkSize
    ensures TileInv(p, page, ws, chunks, pos + 1, AddWord(p, page, st, ws[pos]), full)
  {
    var s := RunStart(p, ws, full);
    SliceSnoc(ws, s, pos);
    AddWordShort(p, page, st, ws[pos]);
    ShortExtend(p, ws, s, FreshStart(full), pos);
  }

  /** One word of the loop keeps the tiling invariant. */
  lemma {:induction false} TileStep(p: ChunkParams, page: int, ws: seq<string>, chunks: seq<Chunk>, pos: int, st: PageState, full: seq<Span>)
    returns (full': seq<Span>)
    requires TileInv(p, page, ws, chunks, pos, st, full) && pos < |ws|
    ensures TileInv(p, page, ws, chunks, pos + 1, AddWord(p, page, st, ws[pos]), full')
  {
    if CountedLength(ws[RunStart(p, ws, full)..pos + 1]) >= p.chunkSize {
      full' := TileFull(p, page, ws, chunks, pos, st, full);
    } else {
      TileShort(p, page, ws, chunks, pos, st, full);
      full' := full;
    }
  }

  lemma {:induction false} TileRun(p: ChunkParams, page: int, ws: seq<string>, chunks: seq<Chunk>, pos: int, st: PageState, full: seq<Span>)
    returns (full': seq<Span>)
    requires TileInv(p, page, ws, chunks, pos, st, full)
    ensures TileInv(p, page, ws, chunks, |ws|, WordLoop(p, page, st, ws[pos..]), full')
    decreases |ws| - pos
  {
    if pos == |ws| {
      assert ws[pos..] == [];
      full' := full;
    } else {
      var next := AddWord(p, page, st, ws[pos]);
      var full1 := TileStep(p, page, ws, chunks, pos, st, full);
      WordLoopStep(p, page, st, ws, pos);
      full' := TileRun(p, page, ws, chunks, pos + 1, next, full1);
    }
  }

  /** The remainder check appends the chunk of the gathered run exactly when it is kept. */
  lemma {:induction false} FlushRest(p: ChunkParams, page: int, ws: seq<string>, st: PageState, rest: Span, before: seq<Chunk>, n: nat)
    requires InPage(ws, rest) && st.current == Words(ws, rest) && st.chunks == before && |before| == n
    ensures FlushPage(p, page, st) == before + RestChunks(p, page, n, ws, rest)
  {
  }

  /** The remainder check at the end of a page keeps the remainder of the tiling or drops it. */
  lemma {:induction false} TileFlush(p: ChunkParams, page: int, ws: seq<string>, chunks: seq<Chunk>, st: PageState, full: seq<Span>)
    requires TileInv(p, page, ws, chunks, |ws|, st, full)
    ensures Tiling(p, ws, full, Span(RunStart(p, ws, full), |ws|))
    ensures FlushPage(p, page, st) ==
      chunks + FullChunks(p, page, |chunks|, ws, full)
             + RestChunks(p, page, |chunks| + |full|, ws, Span(RunStart(p, ws, full), |ws|))
  {
    var rest := Span(RunStart(p, ws, full), |ws|);
    FlushRest(p, page, ws, st, rest, chunks + FullChunks(p, page, |chunks|, ws, full), |chunks| + |full|);
  }

  /** A page starts with no full run and nothing gathered. */
  lemma TileStart(p: ChunkParams, page: int, ws: seq<string>, chunks: seq<Chunk>)
    ensures TileInv(p, page, ws, chunks, 0, PageState(chunks, []), [])
  {
    assert ws[0..0] == [];
  }

  lemma DropNone<T>(ws: seq<T>)
    ensures ws[0..] == ws
  {
  }

  /** The word loop over all the words `ws` of a page keeps the tiling invariant. */
  lemma {:induction false} TileLoop(p: ChunkParams, page: int, ws: seq<string>, chunks: seq<Chunk>) returns (full: seq<Span>)
    ensures TileInv(p, page, ws, chunks, |ws|, WordLoop(p, page, PageState(chunks, []), ws), full)
  {
    var st := PageState(chunks, []);
    TileStart(p, page, ws, chunks);
    DropNone(ws);
    full := TileRun(p, page, ws, chunks, 0, st, []);
  }

  /** The word loop and remainder check over the words `ws` of a page, tiled. */
  lemma {:induction false} WordsTiling(p: ChunkParams, page: int, ws: seq<string>, chunks: seq<Chunk>) returns (full: seq<Span>, rest: Span)
    ensures Tiling(p, ws, full, rest)
    ensures FlushPage(p, page, WordLoop(p, page, PageState(chunks, []), ws)) ==
      chunks + FullChunks(p, page, |chunks|, ws, full) + RestChunks(p, page, |chunks| + |full|, ws, rest)
  {
    full := TileLoop(p, page, ws, chunks);
    TileFlush(p, page, ws, chunks, WordLoop(p, page, PageState(chunks, []), ws), full);
    rest := Span(RunStart(p, ws, full), |ws|);
  }

  /** The chunks of a page are those of its full runs, followed by the remainder when
      it is kept. The first full run starts at word 0 and each later one at the words
      its predecessor carried over. Whenever words follow the last full run, the
      remainder is below the chunk size. */
  lemma {:induction false} PageTiling(p: ChunkParams, page: int, text: string, chunks: seq<Chunk>) returns (full: seq<Span>, rest: Span)
    ensures Tiling(p, Split(text), full, rest)
    ensures ChunkPage(p, page, text, chunks) ==
      chunks + FullChunks(p, page, |chunks|, Split(text), full)
             + RestChunks(p, page, |chunks| + |full|, Split(text), rest)
    ensures FreshStart(full) < |Split(text)| ==> CountedLength(Words(Split(text), rest)) < p.chunkSize
  {
    var ws := Split(text);
    full, rest := WordsTiling(p, page, ws, chunks);
  }

  /** `ChunkPages` over one more page: the chunks of the pages before it, then the page. */
  lemma {:induction false} ChunkPagesSnoc(p: ChunkParams, pages: seq<string>, t: string, k: nat, chunks: seq<Chunk>)
    requires k <= |pages|
    ensures ChunkPages(p, pages + [t], k, chunks) == ChunkPage(p, |pages| + 1, t, ChunkPages(p, pages, k, chunks))
    decreases |pages| - k
  {
    if k < |pages| {
      assert (pages + [t])[k] == pages[k];
      ChunkPagesSnoc(p, pages, t, k + 1, ChunkPage(p, k + 1, pages[k], chunks));
    } else {
      assert (pages + [t])[k] == t;
    }
  }

  lemma ChunkDocumentSnoc(p: ChunkParams, pages: seq<string>, t: string)
    ensures ChunkDocument(p, pages + [t]) == ChunkPage(p, |pages| + 1, t, ChunkDocument(p, pages))
  {
    ChunkPagesSnoc(p, pages, t, 0, []);
  }

  /** The chunks of a document with one more page: the chunks of the pages before it,
      then the new page's full runs and kept remainder, indexed on from them. */
  lemma {:induction false} DocumentTiling(p: ChunkParams, pages: seq<string>, t: string) returns (full: seq<Span>, rest: Span)
    ensures Tiling(p, Split(t), full, rest)
    ensures var before := ChunkDocument(p, pages);
      ChunkDocument(p, pages + [t]) ==
        before + FullChunks(p, |pages| + 1, |before|, Split(t), full)
               + RestChunks(p, |pages| + 1, |before| + |full|, Split(t), rest)
  {
    var before := ChunkDocument(p, pages);
    ChunkDocumentSnoc(p, pages, t);
    full, rest := PageTiling(p, |pages| + 1, t, before);
  }

  // ---------------------------------------------------------------------------
  // The loop as the source writes it

  /** `sum(len(w) + 1 for w in current_chunk)` */
  method RunLength(ws: seq<string>) returns (n: int)
    ensures n == CountedLength(ws)
  {
    n := 0;
    var j := 0;
    while j < |ws|
      invariant 0 <= j <= |ws|
      invariant n == CountedLength(ws[..j])
    {
      assert ws[..j + 1] == ws[..j] + [ws[j]];
      CountedLengthAppend(ws[..j], ws[j]);
      n := n + |ws[j]| + 1;
      j := j + 1;
    }
    assert ws[..j] == ws;
  }

  lemma WordLoopStep(p: ChunkParams, page: int, st: PageState, words: seq<string>, i: nat)
    requires i < |words|
    ensures WordLoop(p, page, st, words[i..]) == WordLoop(p, page, AddWord(p, page, st, words[i]), words[i + 1..])
  {
    assert words[i..][0] == words[i] && words[i..][1..] == words[i + 1..];
  }

  /** The body of `extract_pdf_chunks`' word loop: append the word, and when the running
      length reaches the chunk size emit the chunk and restart from the carried words. */
  method AddWordInPlace(p: ChunkParams, page: int, chunks: seq<Chunk>, current: seq<string>, currentLength: int, word: string)
    returns (chunks': seq<Chunk>, current': seq<string>, currentLength': int)
    requires currentLength == CountedLength(current)
    ensures PageState(chunks', current') == AddWord(p, page, PageState(chunks, current), word)
    ensures currentLength' == CountedLength(current')
  {
    CountedLengthAppend(current, word);
    current' := current + [word];
    currentLength' := currentLength + |word| + 1;
    chunks' := chunks;
    if currentLength' >= p.chunkSize {
      var chunkIndex := |chunks|;
      chunks' := chunks + [Chunk(ChunkId(p.docId, chunkIndex), JoinSpace(current'), p.docId, p.docName, page, chunkIndex)];
      var overlapWords := OverlapWords(p.chunkOverlap);
      current' := if overlapWords > 0 then LastWords(current', overlapWords) else [];
      currentLength' := RunLength(current');
    }
  }

  /** One page of `extract_pdf_chunks`: the word loop, then the remainder check. */
  method ChunkPageInPlace(p: ChunkParams, page: int, text: string, chunks: seq<Chunk>) returns (chunks': seq<Chunk>)
    ensures chunks' == ChunkPage(p, page, text, chunks)
  {
    var words := Split(text);
    var current: seq<string> := [];
    var currentLength := 0;
    chunks' := chunks;
    var i := 0;
    while i < |words|
      invariant 0 <= i <= |words|
      invariant currentLength == CountedLength(current)
      invariant WordLoop(p, page, PageState(chunks', current), words[i..])
             == WordLoop(p, page, PageState(chunks, []), words)
    {
      WordLoopStep(p, page, PageState(chunks', current), words, i);
      chunks', current, currentLength := AddWordInPlace(p, page, chunks', current, currentLength, words[i]);
      i := i + 1;
    }
    assert words[i..] == [];
    if |current| > 0 {
      var chunkText := JoinSpace(current);
      if |Strip(chunkText)| > MinTrailingLength {
        chunks' := chunks' + [Chunk(ChunkId(p.docId, |chunks'|), chunkText, p.docId, p.docName, page, |chunks'|)];
      }
    }
  }

  /** `extract_pdf_chunks` over already extracted page texts, pages numbered from 1. */
  method ExtractPdfChunks(p: ChunkParams, pages: seq<string>) returns (chunks: seq<Chunk>)
    ensures chunks == ChunkDocument(p, pages)
    ensures ChunkListFacts(p, pages, chunks)
  {
    chunks := [];
    var k := 0;
    while k < |pages|
      invariant 0 <= k <= |pages|
      invariant ChunkPages(p, pages, k, chunks) == ChunkDocument(p, pages)
    {
      ChunkPagesStep(p, pages, k, chunks);
      chunks := ChunkPageInPlace(p, k + 1, pages[k], chunks);
      k := k + 1;
    }
    ChunkDocumentProperties(p, pages);
  }

  // ---------------------------------------------------------------------------
  // The document row

  /** What `ingest_document`'s collaborators report: the file write, the page texts
      the PDF library extracts (`page.extract_text() or ""` per page) and the vector
      store insertion, each either succeeding or raising with a message. `index_chunks`
      returns before touching the store when there are no chunks, so `indexError` only
      matters for a document with chunks. */
  datatype IngestEnv = IngestEnv(
    saveError: Option<string>,
    pdf: Result<seq<string>, string>,
    indexError: Option<string>)

  /** `str(UPLOAD_DIR / f"{doc_id}.pdf")` */
  function UploadPath(uploadDir: string, docId: string): string {
    uploadDir + "/" + docId + ".pdf"
  }

  /** The row `ingest_document` commits last: INDEXED with the chunk count when every
      step succeeds, otherwise FAILED with the message of the step that raised and
      whatever fields were set before it. */
  function IngestDocument(docId: string, filename: string, uploadDir: string, env: IngestEnv, now: Timestamp)
    : (d: Document)
    ensures d.id == docId && d.filename == filename
    ensures d.status == Indexed || d.status == Failed
    ensures d.status == Indexed <==>
      && env.saveError.None? && env.pdf.Ok?
      && (env.indexError.None? || |ChunkDocument(DefaultParams(docId, filename), env.pdf.value)| == 0)
    ensures d.status == Indexed ==>
      && d.chunkCount == |ChunkDocument(DefaultParams(docId, filename), env.pdf.value)|
      && d.pageCount == |env.pdf.value|
      && d.indexedAt == Some(now)
      && d.errorMessage == ""
      && d.originalPath == UploadPath(uploadDir, docId)
    ensures d.status == Failed ==> d.chunkCount == 0 && d.indexedAt == None
    ensures env.saveError.Some? ==>
      d.errorMessage == env.saveError.value && d.originalPath == "" && d.pageCount == 0
    ensures env.saveError.None? && env.pdf.Err? ==>
      d.errorMessage == env.pdf.error && d.originalPath == UploadPath(uploadDir, docId) && d.pageCount == 0
    ensures env.saveError.None? && env.pdf.Ok? && env.indexError.Some?
              && |ChunkDocument(DefaultParams(docId, filename), env.pdf.value)| > 0 ==>
      d.errorMessage == env.indexError.value && d.pageCount == |env.pdf.value|
  {
    var doc := NewDocument(docId, filename).(status := Indexing);
    match env.saveError
    case Some(e) => doc.(status := Failed, errorMessage := e)
    case None =>
      var doc := doc.(originalPath := UploadPath(uploadDir, docId));
      match env.pdf
      case Err(e) => doc.(status := Failed, errorMessage := e)
      case Ok(pages) =>
        var chunks := ChunkDocument(DefaultParams(docId, filename), pages);
        var doc := doc.(pageCount := |pages|);
        match if |chunks| == 0 then None else env.indexError
        case Some(e) => doc.(status := Failed, errorMessage := e)
        case None => doc.(chunkCount := |chunks|, status := Indexed, indexedAt := Some(now))
  }
}
