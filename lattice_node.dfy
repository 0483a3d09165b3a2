/** LatticeNode.java: a mutable record of one candidate span, extended with the
    prevNodeIdx field that Komoran.java sets. */
module LatticeNodes {
  import opened Wrappers
  import opened KomoranTypes

  class LatticeNode {
    var beginIdx: int
    var endIdx: int
    var morphTag: Option<MorphTag>   // None stands for Java's null
    var score: Score
    var prevNodeIdx: int

    /** `new LatticeNode()`: every field keeps Java's default value. */
    constructor Blank()
      ensures beginIdx == 0 && endIdx == 0 && morphTag == None && score == 0.0
      ensures prevNodeIdx == 0
    {
      beginIdx, endIdx, morphTag, score, prevNodeIdx := 0, 0, None, 0.0, 0;
    }

    /** The four-argument constructor stores its arguments as given; prevNodeIdx keeps its
        default. */
    constructor (beginIdx: int, endIdx: int, morphTag: Option<MorphTag>, score: Score)
      ensures this.beginIdx == beginIdx && this.endIdx == endIdx
      ensures this.morphTag == morphTag && this.score == score
      ensures prevNodeIdx == 0
    {
      this.beginIdx, this.endIdx, this.morphTag, this.score := beginIdx, endIdx, morphTag, score;
      prevNodeIdx := 0;
    }

    method GetBeginIdx() returns (r: int)
      ensures r == beginIdx
    {
      r := beginIdx;
    }

    method SetBeginIdx(beginIdx: int)
      modifies this
      ensures this.beginIdx == beginIdx
      ensures endIdx == old(endIdx) && morphTag == old(morphTag) && score == old(score)
      ensures prevNodeIdx == old(prevNodeIdx)
    {
      this.beginIdx := beginIdx;
    }

    method GetEndIdx() returns (r: int)
      ensures r == endIdx
    {
      r := endIdx;
    }

    method SetEndIdx(endIdx: int)
      modifies this
      ensures this.endIdx == endIdx
      ensures beginIdx == old(beginIdx) && morphTag == old(morphTag) && score == old(score)
      ensures prevNodeIdx == old(prevNodeIdx)
    {
      this.endIdx := endIdx;
    }

    method GetMorphTag() returns (r: Option<MorphTag>)
      ensures r == morphTag
    {
      r := morphTag;
    }

    method SetMorphTag(morphTag: Option<MorphTag>)
      modifies this
      ensures this.morphTag == morphTag
      ensures beginIdx == old(beginIdx) && endIdx == old(endIdx) && score == old(score)
      ensures prevNodeIdx == old(prevNodeIdx)
    {
      this.morphTag := morphTag;
    }

    method GetScore() returns (r: Score)
      ensures r == score
    {
      r := score;
    }

    method SetScore(score: Score)
      modifies this
      ensures this.score == score
      ensures beginIdx == old(beginIdx) && endIdx == old(endIdx) && morphTag == old(morphTag)
      ensures prevNodeIdx == old(prevNodeIdx)
    {
      this.score := score;
    }

    method GetPrevNodeIdx() returns (r: int)
      ensures r == prevNodeIdx
    {
      r := prevNodeIdx;
    }

    method SetPrevNodeIdx(prevNodeIdx: int)
      modifies this
      ensures this.prevNodeIdx == prevNodeIdx
      ensures beginIdx == old(beginIdx) && endIdx == old(endIdx) && morphTag == old(morphTag)
      ensures score == old(score)
    {
      this.prevNodeIdx := prevNodeIdx;
    }

    /** The value a lattice keeps of this node once its morphTag is set. */
    function View(): (v: NodeValue)
      reads this
      requires morphTag.Some?
      ensures v.beginIdx == beginIdx && v.endIdx == endIdx && v.morphTag == morphTag.value
      ensures v.score == score && v.prevNodeIdx == prevNodeIdx
    {
      NodeValue(beginIdx, endIdx, morphTag.value, score, prevNodeIdx)
    }
  }
}
