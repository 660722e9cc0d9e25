/** Speculative decoding of Huffman-encoded data is lossless: the
    sequential run it commits from bit 0 of `encode(data, codes)`, with the
    decoding tree of `codes`, decodes exactly `data` and uses every bit. */
module SpeculativeProperties {
  import opened Wrappers
  import opened Huffman
  import opened HuffmanProperties
  import opened SingleDecoder
  import opened SingleDecoderProperties
  import opened Predictors
  import opened SpeculativeDecoder

  /** The codeword of `data[i]` ends where the codeword of `data[i + 1]`
      starts. */
  lemma BoundaryStep(data: seq<Symbol>, codes: map<Symbol, Bits>, i: nat)
    requires i < |data| && forall j :: 0 <= j < |data| ==> data[j] in codes
    ensures Boundary(data, codes, i + 1) == Boundary(data, codes, i) + |codes[data[i]]|
  {
    assert data[..i + 1] == data[..i] + [data[i]];
    CodewordsConcat(data[..i], [data[i]], codes);
    assert [data[i]][1..] == [];
  }

  /** The boundary after the last symbol is the end of the encoding. */
  lemma BoundaryEnd(data: seq<Symbol>, codes: map<Symbol, Bits>)
    requires forall j :: 0 <= j < |data| ==> data[j] in codes
    ensures Boundary(data, codes, |data|) == |Codewords(data, codes)|
  {
    assert data[..|data|] == data;
  }

  /** Sequential decoding from the boundary of `data[i]`, when the attempt
      at every later boundary decodes the symbol there, yields `data[i..]`
      and ends at the last boundary. */
  lemma {:induction false} RunFromBoundary(attempt: Attempt, codes: map<Symbol, Bits>, data: seq<Symbol>, i: nat)
    requires i <= |data| && forall j :: 0 <= j < |data| ==> data[j] in codes
    requires Decodes(attempt, Boundary(data, codes, |data|))
    requires forall j :: i <= j < |data| ==>
      attempt(Boundary(data, codes, j)) == Success(data[j], |codes[data[j]]|)
    ensures var end := Boundary(data, codes, |data|);
      var run := Run(attempt, end, Boundary(data, codes, i));
      Symbols(run) == data[i..] && Boundary(data, codes, i) + TotalLength(run) == end
    decreases |data| - i
  {
    var end := Boundary(data, codes, |data|);
    var pos := Boundary(data, codes, i);
    if i == |data| {
      assert !attempt(pos).wasDecoded;
      assert data[i..] == [];
    } else {
      BoundaryStep(data, codes, i);
      RunFromBoundary(attempt, codes, data, i + 1);
      RunStep(attempt, end, pos, data[i], |codes[data[i]]|, Boundary(data, codes, i + 1));
      assert data[i..] == [data[i]] + data[i + 1..];
    }
  }

  /** A successful attempt heads the run: its symbol and length come first. */
  lemma RunStep(attempt: Attempt, end: nat, pos: nat, s: Symbol, length: nat, next: nat)
    requires Decodes(attempt, end) && attempt(pos) == Success(s, length) && next == pos + length
    ensures Symbols(Run(attempt, end, pos)) == [s] + Symbols(Run(attempt, end, next))
    ensures TotalLength(Run(attempt, end, pos)) == length + TotalLength(Run(attempt, end, next))
  {
    var rest := Run(attempt, end, next);
    assert Run(attempt, end, pos) == [attempt(pos)] + rest;
    assert ([attempt(pos)] + rest)[1..] == rest;
  }

  /** Sequential decoding of an encoding with a tree that walks every
      codeword gives back the data and stops at the last bit. */
  lemma WalkingTreeRun(tree: Tree, codes: map<Symbol, Bits>, data: seq<Symbol>)
    requires |codes| > 0 && CodeWalks(tree, codes)
    requires forall j :: 0 <= j < |data| ==> data[j] in codes
    ensures Encode(data, codes).Ok?
    ensures var bits := Encode(data, codes).value;
      var run := Run(Attempts(tree, bits), |bits|, 0);
      Symbols(run) == data && TotalLength(run) == |bits|
  {
    var bits := Codewords(data, codes);
    var a := Attempts(tree, bits);
    assert |bits| == Boundary(data, codes, |data|) by {
      BoundaryEnd(data, codes);
    }
    forall j | 0 <= j < |data| ensures a(Boundary(data, codes, j)) == Success(data[j], |codes[data[j]]|) {
      WalkingTreeAtBoundary(tree, codes, data, j);
    }
    RunFromBoundary(a, codes, data, 0);
    assert data[..0] == [];
    assert data[0..] == data;
  }

  /** The same for `build_decoding_tree(codes)` of a binary prefix-free code
      map without empty codewords. */
  lemma DecodingTreeRun(codes: map<Symbol, Bits>, data: seq<Symbol>)
    requires |codes| > 0 && BinaryCodes(codes) && PrefixFree(codes)
    requires forall s :: s in codes ==> |codes[s]| >= 1
    requires forall j :: 0 <= j < |data| ==> data[j] in codes
    ensures Encode(data, codes).Ok?
    ensures var bits := Encode(data, codes).value;
      var run := Run(Attempts(BuildDecodingTree(codes), bits), |bits|, 0);
      Symbols(run) == data && TotalLength(run) == |bits|
  {
    DecodingTreeWalks(codes);
    WalkingTreeRun(BuildDecodingTree(codes), codes, data);
  }

  /** The same for the Huffman code of any frequency table covering the
      data, as the simulator builds it. */
  lemma HuffmanRun(f: map<Symbol, int>, data: seq<Symbol>)
    requires forall j :: 0 <= j < |data| ==> data[j] in f
    ensures Encode(data, Generate(f)).Ok?
    ensures var bits := Encode(data, Generate(f)).value;
      var run := Run(Attempts(BuildDecodingTree(Generate(f)), bits), |bits|, 0);
      Symbols(run) == data && TotalLength(run) == |bits|
  {
    GenerateIsPrefixCode(f);
    if |data| > 0 {
      CoveredDataNeedsTable(f, data);
    }
    if |f| > 0 {
      DecodingTreeRun(Generate(f), data);
    }
  }

  /** The simulator's pipeline: a fresh speculative decoder over the decoding
      tree of a Huffman code decodes the encoding of `data` back to `data`
      and ends at the last bit, whatever the width and prediction, as long
      as the predictor can predict and the chain cap keeps the first
      result. */
  method DecodeEncoded(f: map<Symbol, int>, data: seq<Symbol>, width: nat, predictor: Predictor, limit: Option<int>)
    returns (r: Result<Output, PredictorError>, e: SpecDecoder)
    requires forall j :: 0 <= j < |data| ==> data[j] in f
    requires !predictor.Base? && KeepsFirst(limit)
    ensures Encode(data, Generate(f)).Ok?
    ensures r.Ok? && r.value.symbols == data
    ensures e.position == |Encode(data, Generate(f)).value|
  {
    HuffmanRun(f, data);
    var bits := Encode(data, Generate(f)).value;
    var d := NewSpeculativeDecoder(BuildDecodingTree(Generate(f)), width, predictor, limit);
    r, e := DecodeWholeRun(d, Attempts(d.tree, bits), |bits|);
  }

  /** With a predictor that predicts and a cap that keeps the first result,
      `decode` commits the whole sequential run from its position. */
  method DecodeWholeRun(d: SpecDecoder, attempt: Attempt, end: nat) returns (r: Result<Output, PredictorError>, e: SpecDecoder)
    requires Decodes(attempt, end)
    requires !d.predictor.Base? && KeepsFirst(d.chainLimit)
    ensures r.Ok?
    ensures r.value.symbols == Symbols(Run(attempt, end, d.position))
    ensures e.position == d.position + TotalLength(Run(attempt, end, d.position))
  {
    r, e := DecodeWith(d, attempt, end);
    ghost var run := Run(attempt, end, d.position);
    SymbolPerResultOfRun(attempt, end, d.position);
    assert run[..|r.value.symbols|] == run;
  }

  /** Data whose symbols all have an entry needs a non-empty table. */
  lemma CoveredDataNeedsTable(f: map<Symbol, int>, data: seq<Symbol>)
    requires |data| > 0 && forall j :: 0 <= j < |data| ==> data[j] in f
    ensures |f| > 0
  {
    assert data[0] in f.Keys;
  }

  /** A run yields one symbol per result. */
  lemma SymbolPerResultOfRun(attempt: Attempt, end: nat, pos: nat)
    requires Decodes(attempt, end)
    ensures |Symbols(Run(attempt, end, pos))| == |Run(attempt, end, pos)|
  {
    RunSucceeds(attempt, end, pos);
    SymbolPerResult(Run(attempt, end, pos));
  }
}
