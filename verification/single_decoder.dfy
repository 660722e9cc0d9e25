/** Decoding one codeword from an arbitrary bit offset, and the decoder
    record that counts its calls. */
module SingleDecoder {
  import opened Wrappers
  import opened Huffman
  import opened DecodingStatistics

  /** `SingleDecodingResult`: whether a symbol was found, which one, and how
      many bits the attempt consumed. */
  datatype SingleResult = SingleResult(wasDecoded: bool, symbol: Option<Symbol>, length: nat)

  function Failure(length: nat): SingleResult {
    SingleResult(false, None, length)
  }

  function Success(s: Symbol, length: nat): SingleResult {
    SingleResult(true, Some(s), length)
  }

  /** The traversal loop: `i` is the next bit to read, `cur` the node reached
      from the root by `data[pos..i]`. Only '0' and '1' are followed; another
      character or a missing child fails at once and counts the offending
      bit; running out of bits fails with everything read. */
  function Walk(cur: Tree, data: Bits, pos: nat, i: nat): (r: SingleResult)
    requires cur.Node? && pos <= i <= |data|
    ensures r.wasDecoded <==> r.symbol.Some?
    ensures i - pos <= r.length <= |data| - pos
    ensures !r.wasDecoded ==> r.length >= 1 || i == |data|
    decreases |data| - i
  {
    if i == |data| then Failure(|data| - pos)
    else
      var consumed := i - pos + 1;
      var bit := data[i];
      if bit != '0' && bit != '1' then Failure(consumed)
      else
        var next := Child(cur, bit);
        if next.Nil? then Failure(consumed)
        else if next.symbol.Some? then Success(next.symbol.value, consumed)
        else Walk(next, data, pos, i + 1)
  }

  /** `_decode`: one codeword read from `pos`. Nothing is read from empty
      data, from an offset past the end or without a tree; a root that holds
      a symbol (for a Huffman-generated code, exactly a lone leaf) decodes
      that symbol from any offset in range with one bit, children or not. */
  function DecodeAt(tree: Tree, data: Bits, pos: nat): (r: SingleResult)
    ensures r.wasDecoded <==> r.symbol.Some?
    ensures |data| == 0 || pos >= |data| || tree.Nil? ==> r == Failure(0)
    ensures pos < |data| && tree.Node? && tree.symbol.Some? ==> r == Success(tree.symbol.value, 1)
    ensures pos < |data| && tree.Node? ==> 1 <= r.length <= |data| - pos
  {
    if |data| == 0 || pos >= |data| || tree.Nil? then Failure(0)
    else if tree.symbol.Some? then Success(tree.symbol.value, 1)
    else Walk(tree, data, pos, pos)
  }

  // ---------------------------------------------------------------------
  // The decoder record.

  /** `tree` is the decoding tree, `current` the node a decode has reached
      (back at the root between calls), `singleSymbol` the symbol the root
      holds, if any (for a Huffman-generated code, only a lone leaf does). */
  datatype Decoder = Decoder(tree: Tree, current: Tree, singleSymbol: Option<Symbol>, stats: Stats)

  function NewDecoder(tree: Tree): (d: Decoder)
    ensures d.tree == tree && d.current == tree && d.stats == Default()
    ensures d.singleSymbol.Some? <==> tree.Node? && tree.symbol.Some?
    ensures d.singleSymbol.Some? ==> d.singleSymbol == tree.symbol
  {
    Decoder(tree, tree, if tree.Node? && tree.symbol.Some? then tree.symbol else None, Default())
  }

  /** The symbol the root holds, if any; `__init__` remembers it. */
  function RootSymbol(tree: Tree): Option<Symbol> {
    if tree.Node? && tree.symbol.Some? then tree.symbol else None
  }

  /** A decoder as built by `NewDecoder`, possibly after some calls. */
  predicate Consistent(d: Decoder) {
    && d.current == d.tree
    && d.singleSymbol == RootSymbol(d.tree)
    && d.stats.Valid()
  }

  /** `_update_stats`: one more call, its bits, and one more success or
      failure; a one-bit success of a decoder whose root holds a symbol is
      also counted as a single-symbol decode. */
  function UpdateStats(s: Stats, r: SingleResult, singleSymbol: Option<Symbol>): (t: Stats)
    ensures t.totalDecodes == s.totalDecodes + 1
    ensures t.bitsProcessed == s.bitsProcessed + r.length
    ensures r.wasDecoded ==> t.successfulDecodes == s.successfulDecodes + 1 && t.failedDecodes == s.failedDecodes
    ensures !r.wasDecoded ==> t.failedDecodes == s.failedDecodes + 1 && t.successfulDecodes == s.successfulDecodes
    ensures t.singleSymbolDecodes == s.singleSymbolDecodes +
      (if r.wasDecoded && r.length == 1 && singleSymbol.Some? then 1 else 0)
    ensures s.Valid() ==> t.Valid()
  {
    var t := s.(totalDecodes := s.totalDecodes + 1, bitsProcessed := s.bitsProcessed + r.length);
    if r.wasDecoded then
      t.(successfulDecodes := s.successfulDecodes + 1,
         singleSymbolDecodes := s.singleSymbolDecodes + (if r.length == 1 && singleSymbol.Some? then 1 else 0))
    else t.(failedDecodes := s.failedDecodes + 1)
  }

  /** `decode`: the result of `_decode`, after which the decoder is back at
      the root and its counters are updated. The result does not depend on
      the node the decoder was left at nor on its counters. */
  function Decode(d: Decoder, data: Bits, pos: nat): (out: (SingleResult, Decoder))
    ensures out.0 == DecodeAt(d.tree, data, pos)
    ensures out.1.tree == d.tree && out.1.current == d.tree && out.1.singleSymbol == d.singleSymbol
    ensures out.1.stats == UpdateStats(d.stats, out.0, d.singleSymbol)
    ensures Consistent(d) ==> Consistent(out.1)
  {
    var r := DecodeAt(d.tree, data, pos);
    (r, d.(current := d.tree, stats := UpdateStats(d.stats, r, d.singleSymbol)))
  }

  /** `statistics`: a copy of the counters; being a value, later calls do
      not change it. */
  function Statistics(d: Decoder): (s: Stats)
    ensures s == d.stats
  {
    d.stats
  }

  /** `reset_statistics`: counters back to zero, the tree untouched. */
  function ResetStatistics(d: Decoder): (e: Decoder)
    ensures e.stats == Default()
    ensures e == d.(stats := e.stats)
  {
    d.(stats := Reset(d.stats))
  }

  /** `get_statistics_summary`. */
  function StatisticsSummary(d: Decoder): (m: Summary)
    ensures m == ToDict(d.stats)
  {
    ToDict(d.stats)
  }
}
