/** The Lattice as the analyzer sees it. Its implementation is not part of this model: a
    Lattice here records every call made on it, and answers getNodeList, appendEndNode and
    findPath through its oracle, as a function of those calls. */
module Lattices {
  import opened Wrappers
  import opened KomoranTypes
  import opened LatticeNodes

  class Lattice {
    const oracle: LatticeOracle
    var calls: seq<LatticeCall>

    /** `new Lattice(resources)`: a lattice nothing has been put into. */
    constructor (oracle: LatticeOracle)
      ensures this.oracle == oracle && calls == []
    {
      this.oracle := oracle;
      calls := [];
    }

    /** put(beginIdx, endIdx, morph, tag, tagId, score). */
    method Put(beginIdx: int, endIdx: int, morph: string, tag: string, tagId: int, score: Score)
      modifies this
      ensures calls == old(calls) + [LatticeCall.Put(beginIdx, endIdx, morph, tag, tagId, score)]
    {
      calls := calls + [LatticeCall.Put(beginIdx, endIdx, morph, tag, tagId, score)];
    }

    /** put(beginIdx, endIdx, irregularNode). */
    method PutIrregular(beginIdx: int, endIdx: int, node: IrregularNode)
      modifies this
      ensures calls == old(calls) + [LatticeCall.PutIrregular(beginIdx, endIdx, node)]
    {
      calls := calls + [LatticeCall.PutIrregular(beginIdx, endIdx, node)];
    }

    /** appendNode(node), for a node whose morphTag is set. */
    method AppendNode(node: LatticeNode)
      requires node.morphTag.Some?
      modifies this
      ensures calls == old(calls) + [Append(node.View())]
    {
      calls := calls + [Append(node.View())];
    }

    /** setLastIdx(lastIdx): recorded for appendEndNode and findPath to use. */
    method SetLastIdx(lastIdx: int)
      modifies this
      ensures calls == old(calls) + [LatticeCall.SetLastIdx(lastIdx)]
    {
      calls := calls + [LatticeCall.SetLastIdx(lastIdx)];
    }

    /** appendEndNode(): whether some node reached the last index. */
    method AppendEndNode() returns (inserted: bool)
      modifies this
      ensures inserted == oracle.endInserted(old(calls))
      ensures calls == old(calls) + [AppendEnd]
    {
      inserted := oracle.endInserted(calls);
      calls := calls + [AppendEnd];
    }

    /** getNodeList(idx): the oracle's answer for the calls made so far (None for null);
        nothing is recorded. */
    method GetNodeList(idx: int) returns (nodes: Option<seq<NodeValue>>)
      ensures nodes == oracle.nodeList(calls, idx)
    {
      nodes := oracle.nodeList(calls, idx);
    }

    /** findPath(): the oracle's decoded path for the calls made so far (None for null). */
    method FindPath() returns (path: Option<seq<Pair>>)
      ensures path == oracle.path(calls)
    {
      path := oracle.path(calls);
    }
  }
}
