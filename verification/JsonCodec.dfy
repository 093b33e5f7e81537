/** The printers and the tokener together, as the code is used. */
module JsonCodec {
  import opened Json
  import opened PrintSpec
  import opened TokenerSpec
  import Printer
  import Tokener
  import RoundTrip
  import Documents
  import DocumentReader
  import Chunking

  /** Print a value and parse the C string: the value comes back if it is not nested too
      deeply, and otherwise the tokener reports that. */
  method PrintAndParse(v: Value, f: Flags, cfg: Config) returns (ret: Value, err: Error)
    requires Printable(v) && cfg.maxDepth >= 1
    ensures Height(v) < cfg.maxDepth ==> err == Success && ret == v
    ensures Height(v) >= cfg.maxDepth ==> err == ErrDepth
  {
    hide ParseEx, Text;
    var pb := new Printer.PrintBuf();
    pb.PrintValue(v, 0, f);
    assert pb.buf == Text(v, 0, f);
    var tok := new Tokener.Tokener(cfg);
    ret := tok.ParseEx(pb.buf + "\0");
    err := tok.err;
    RoundTrip.ParsesIffShallow(cfg, INITIAL, v, f);
    if Height(v) < cfg.maxDepth {
      RoundTrip.RoundTrip(cfg, INITIAL, v, f);
    }
  }

  /** Parse the text of a document, with white space and comments around it. */
  method ParseText(before: Documents.Gap, d: Documents.Doc, after: Documents.Gap, cfg: Config)
    returns (ret: Value, err: Error)
    requires Documents.GapValid(before, cfg.strict) && Documents.GapValid(after, cfg.strict)
    requires Documents.Valid(cfg, d) && Documents.Fits(d, 0, cfg.maxDepth) && cfg.maxDepth >= 1
    ensures err == Success && ret == Documents.Meaning(cfg, d)
  {
    hide ParseEx, Documents.Valid, Documents.GapValid, Documents.DocText, Documents.GapText, Documents.Meaning;
    var text := Documents.GapText(before) + Documents.DocText(d) + Documents.GapText(after);
    var tok := new Tokener.Tokener(cfg);
    ret := tok.ParseEx(text + "\0");
    err := tok.err;
    DocumentReader.ParseDocument(cfg, INITIAL, before, d, after, "\0");
  }

  lemma {:induction false} SameFeed(cfg: Config, m: Tok, chunks: seq<string>)
    ensures Chunking.Feed(cfg, m, chunks).err == Chunking.Feed(cfg, m.(obj := Null), chunks).err
    ensures Chunking.Feed(cfg, m, chunks).value == Chunking.Feed(cfg, m.(obj := Null), chunks).value
  {
  }

  lemma {:induction false} NoValueYet(cfg: Config, m: Tok, s: string)
    ensures ParseEx(cfg, m, s).err != Success ==> ParseEx(cfg, m, s).value == Null
  {
    hide Run;
  }

  /** Parse chunk by chunk, as long as the tokener asks for more. */
  method ParseChunks(tok: Tokener.Tokener, chunks: seq<string>) returns (ret: Value, err: Error)
    requires tok.Valid()
    modifies tok, tok.stack
    ensures tok.Valid()
    ensures var r := Chunking.Feed(tok.cfg, old(tok.Machine(Null)), chunks); err == r.err && ret == r.value
  {
    hide ParseEx;
    ghost var whole := Chunking.Feed(tok.cfg, tok.Machine(Null), chunks);
    ret, err := Null, Continue;
    var i := 0;
    assert chunks[0..] == chunks;
    while i < |chunks| && err == Continue
      invariant i <= |chunks| && tok.Valid()
      invariant err == Continue ==> ret == Null
      invariant err == Continue ==>
        var r := Chunking.Feed(tok.cfg, tok.Machine(Null), chunks[i..]); r.err == whole.err && r.value == whole.value
      invariant err != Continue ==> err == whole.err && ret == whole.value
    {
      ghost var r := ParseEx(tok.cfg, tok.Machine(Null), chunks[i]);
      NoValueYet(tok.cfg, tok.Machine(Null), chunks[i]);
      ret := tok.ParseEx(chunks[i]);
      err := tok.err;
      SameFeed(tok.cfg, r.m, chunks[i + 1..]);
      assert chunks[i..][1..] == chunks[i + 1..];
      i := i + 1;
    }
  }

  /** The text of an array or object, cut into pieces in any way, is parsed to the same value. */
  method PrintAndParseChunks(v: Value, f: Flags, cfg: Config, chunks: seq<string>) returns (ret: Value, err: Error)
    requires Printable(v) && Height(v) < cfg.maxDepth && (v.Arr? || v.Obj?)
    requires Chunking.Concat(chunks) == Text(v, 0, f)
    ensures err == Success && ret == v
  {
    var tok := new Tokener.Tokener(cfg);
    Chunking.ChunkingInvariance(cfg, INITIAL, v, f, chunks);
    hide Text, Chunking.Feed, ParseEx;
    ret, err := ParseChunks(tok, chunks);
  }
}
