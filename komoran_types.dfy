/** The values the analyzer core passes around, and the collaborators whose source is not
    part of this model (the tag table, the dictionary tries, the unit parser, the character
    classifiers and the Lattice), each reduced to the answers the core receives from it. */
module KomoranTypes {
  import opened Wrappers

  /** Scores are Java doubles that Komoran.java only copies from one place to another. */
  type Score = real

  /** Tag names the analyzer uses literally. */
  const SL := "SL"
  const SN := "SN"
  const SH := "SH"
  const SW := "SW"
  const NA := "NA"
  const NNP := "NNP"

  /** A morpheme with its tag name and tag id. */
  datatype MorphTag = MorphTag(morph: string, tag: string, tagId: int)

  /** A dictionary's tag for a morpheme, with its emission score. */
  datatype ScoredTag = ScoredTag(tag: string, tagId: int, score: Score)

  /** One entry of the irregular dictionary; the core hands it to the lattice unopened. */
  datatype IrregularNode = IrregularNode(entry: nat)

  /** One (morpheme, tag) pair of the analysis result. */
  datatype Pair = Pair(first: string, second: string)

  /** What the lattice holds of a node: its span, morpheme and tag, cumulative score and
      the position of its predecessor. */
  datatype NodeValue = NodeValue(beginIdx: int, endIdx: int, morphTag: MorphTag, score: Score,
                                 prevNodeIdx: int)

  /** A dictionary trie. `entries` answers the exact lookups (getValue, hasChild); `step`
      answers the cursor lookup get(jaso): what the automaton reports after being fed, since
      its cursor was last reset, the given units. */
  datatype Trie<V> = Trie(entries: map<string, V>, step: seq<char> -> Option<map<string, V>>)

  /** getValue: the entry stored under exactly `key`, or null. */
  function GetValue<V>(t: Trie<V>, key: string): (r: Option<V>)
    ensures r.Some? <==> key in t.entries
    ensures r.Some? ==> r.value == t.entries[key]
  {
    if key in t.entries then Some(t.entries[key]) else None
  }

  /** hasChild: the trie node for `key` has a child, that is some entry extends `key`. */
  predicate HasChild<V>(t: Trie<V>, key: string) {
    exists k :: k in t.entries && key < k
  }

  /** The JDK and StringUtil character predicates the classifiers consult. */
  datatype CharClasses = CharClasses(
    isDigit: char -> bool,      // Character.isDigit
    isEnglish: char -> bool,    // StringUtil.isEnglish
    isNumeric: char -> bool,    // StringUtil.isNumeric
    isChinese: char -> bool,    // StringUtil.isChinese
    isForeign: char -> bool)    // StringUtil.isForeign

  /** Every call the core makes on a Lattice, in the order it makes them. */
  datatype LatticeCall =
    | Put(beginIdx: int, endIdx: int, morph: string, tag: string, tagId: int, score: Score)
    | PutIrregular(beginIdx: int, endIdx: int, irregular: IrregularNode)
    | Append(node: NodeValue)
    | SetLastIdx(lastIdx: int)
    | AppendEnd

  /** The Lattice's answers, each a function of the calls made on it since it was created:
      getNodeList(idx), the result of appendEndNode(), and findPath() (null: no path). */
  datatype LatticeOracle = LatticeOracle(
    nodeList: (seq<LatticeCall>, int) -> Option<seq<NodeValue>>,
    endInserted: seq<LatticeCall> -> bool,
    path: seq<LatticeCall> -> Option<seq<Pair>>)

  /** The Resources bundle and the constants of the SYMBOL and SCORE classes. */
  datatype Resources = Resources(
    tagId: string -> int,                    // getTable().getId
    irregularTag: string,                    // SYMBOL.IRREGULAR
    irregularId: int,                        // SYMBOL.IRREGULAR_ID
    swScore: Score, slScore: Score, snScore: Score, shScore: Score,  // SCORE.*
    classes: CharClasses,
    observation: Trie<seq<ScoredTag>>,       // getObservation().getTrieDictionary()
    irrTrie: Trie<seq<IrregularNode>>,       // getIrrTrie().getTrieDictionary()
    parse: string -> string,                 // KoreanUnitParser.parse
    lattice: LatticeOracle,
    keyOrder: set<string> -> seq<string>,    // the iteration order of a HashMap's keySet()
    setOrder: nat -> seq<nat>)               // the iteration order of a HashSet of n nodes,
                                             // as positions in insertion order

  /** `order` lists every element of `keys` once. */
  predicate IsEnumeration(order: seq<string>, keys: set<string>) {
    (forall k :: 0 <= k < |order| ==> order[k] in keys)
    && (forall key :: key in keys ==> key in order)
    && (forall j, k :: 0 <= j < k < |order| ==> order[j] != order[k])
  }

  /** `order` lists every position below n once. */
  predicate IsPermutation(order: seq<nat>, n: nat) {
    |order| == n
    && (forall k :: 0 <= k < |order| ==> order[k] < n)
    && (forall j, k :: 0 <= j < k < |order| ==> order[j] != order[k])
  }

  /** The iteration orders are orders: each key and each node is visited exactly once. */
  ghost predicate ValidResources(res: Resources) {
    (forall keys: set<string> :: IsEnumeration(res.keyOrder(keys), keys))
    && (forall n: nat :: IsPermutation(res.setOrder(n), n))
  }
}
