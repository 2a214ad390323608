/**
 * The Encoder of encoding.py: it builds, from training rows of categorical
 * answers, a per-column vocabulary filtered by a frequency cutoff, encodes
 * rows into a fixed-width multi-hot value matrix plus an "existence" mask, and
 * decodes a matrix back into answers by taking the arg-max of every block.
 */
module Encoding {
  import opened Layout

  /** A row of answers, one per schema column. */
  type Row = seq<string>

  /** The sentinel for "no answer". */
  const NA: string := "NA"

  /** 1 when column i of the row exists and holds v, else 0. */
  function Hit(row: Row, i: nat, v: string): nat
  {
    if i < |row| && row[i] == v then 1 else 0
  }

  /** Number of rows whose column i holds v. */
  function Count(data: seq<Row>, i: nat, v: string): nat
  {
    if data == [] then 0 else Count(data[..|data| - 1], i, v) + Hit(data[|data| - 1], i, v)
  }

  /** The vocabulary keeps v for column i: v is an answer (not the sentinel)
      seen in column i, and seen there at least cutoff times. */
  predicate Retained(data: seq<Row>, i: nat, v: string, cutoff: int)
  {
    v != NA && Count(data, i, v) > 0 && Count(data, i, v) >= cutoff
  }

  /** The sizes encode and decode rely on: one mapping per width, a global
      answer list as long as the total width, and local indices inside their
      column's block. */
  ghost predicate Shaped(ita: seq<string>, ati: seq<map<string, nat>>, w: seq<nat>)
  {
    && |ati| == |w| && |ita| == Sum(w)
    && (forall i, v :: 0 <= i < |w| && v in ati[i] ==> ati[i][v] < w[i])
  }

  /** index_to_ans and ans_to_index agree in both directions: a key v of
      column i with local index k sits at position k of block i, and the
      answer at position k of block i is a key of column i with local index k. */
  ghost predicate Consistent(ita: seq<string>, ati: seq<map<string, nat>>, w: seq<nat>)
  {
    && Shaped(ita, ati, w)
    && (forall i, v :: 0 <= i < |w| && v in ati[i] ==> BlockOf(ita, w, i)[ati[i][v]] == v)
    && (forall i, k :: 0 <= i < |w| && 0 <= k < w[i] ==>
          BlockOf(ita, w, i)[k] in ati[i] && ati[i][BlockOf(ita, w, i)[k]] == k)
  }

  /** No column's mapping has the sentinel as a key. */
  ghost predicate NoSentinel(ati: seq<map<string, nat>>)
  {
    forall i :: 0 <= i < |ati| ==> NA !in ati[i]
  }

  /** Column j of the row carries an answer that encode writes: it is present,
      it is not the sentinel, and column j's mapping has it. */
  predicate Known(ati: seq<map<string, nat>>, row: Row, j: nat)
    requires j < |ati|
  {
    j < |row| && row[j] != NA && row[j] in ati[j]
  }

  /** Block j of an encoded value row. */
  function ValueBlock(ati: seq<map<string, nat>>, w: seq<nat>, row: Row, j: nat): seq<int>
    requires |ati| == |w| && j < |w|
  {
    seq(w[j], p => if Known(ati, row, j) && ati[j][row[j]] == p then 1 else 0)
  }

  /** Block j of an encoded existence row. */
  function ExistenceBlock(ati: seq<map<string, nat>>, w: seq<nat>, row: Row, j: nat): seq<int>
    requires |ati| == |w| && j < |w|
  {
    seq(w[j], p => if Known(ati, row, j) then 1 else 0)
  }

  function ValueBlocks(ati: seq<map<string, nat>>, w: seq<nat>, row: Row): seq<seq<int>>
    requires |ati| == |w|
  {
    seq(|w|, j requires 0 <= j < |w| => ValueBlock(ati, w, row, j))
  }

  function ExistenceBlocks(ati: seq<map<string, nat>>, w: seq<nat>, row: Row): seq<seq<int>>
    requires |ati| == |w|
  {
    seq(|w|, j requires 0 <= j < |w| => ExistenceBlock(ati, w, row, j))
  }

  /** The row of the value matrix that encode writes for a row of answers. */
  function ValueRow(ati: seq<map<string, nat>>, w: seq<nat>, row: Row): (r: seq<int>)
    requires |ati| == |w|
    ensures |r| == Sum(w)
  {
    ConcatLength(ValueBlocks(ati, w, row), w);
    Concat(ValueBlocks(ati, w, row))
  }

  /** The row of the existence matrix that encode writes for a row of answers. */
  function ExistenceRow(ati: seq<map<string, nat>>, w: seq<nat>, row: Row): (r: seq<int>)
    requires |ati| == |w|
    ensures |r| == Sum(w)
  {
    ConcatLength(ExistenceBlocks(ati, w, row), w);
    Concat(ExistenceBlocks(ati, w, row))
  }

  /** np.argmax: the first index of the largest entry. */
  function ArgMax(s: seq<int>): (r: nat)
    requires |s| > 0
    ensures r < |s|
    ensures forall i :: 0 <= i < |s| ==> s[i] <= s[r]
    ensures forall i :: 0 <= i < r ==> s[i] < s[r]
  {
    if |s| == 1 then 0
    else
      var r := ArgMax(s[..|s| - 1]);
      if s[|s| - 1] > s[r] then |s| - 1 else r
  }

  /** The answer decode reconstructs for column k of a matrix row. */
  function DecodeAnswer(ita: seq<string>, w: seq<nat>, row: seq<int>, k: nat): (r: string)
    requires |ita| == Sum(w) && Sum(w) <= |row| && k < |w|
    ensures w[k] == 0 ==> r == NA
    ensures w[k] > 0 ==> r in BlockOf(ita, w, k)
  {
    BlockWithin(w, k);
    var start := Offset(w, k);
    var end := start + w[k];
    if start == end then NA
    else ita[start + ArgMax(BlockOf(row, w, k))]
  }

  /** The row of answers decode reconstructs from a matrix row. */
  function DecodeRow(ita: seq<string>, w: seq<nat>, row: seq<int>): (r: seq<string>)
    requires |ita| == Sum(w) && Sum(w) <= |row|
    ensures |r| == |w|
    ensures forall k :: 0 <= k < |w| && w[k] > 0 ==> r[k] in BlockOf(ita, w, k)
  {
    seq(|w|, k requires 0 <= k < |w| => DecodeAnswer(ita, w, row, k))
  }

  /** The smaller of two integers (numpy clamps slice bounds to the row length). */
  function Min(a: int, b: int): int
  {
    if a <= b then a else b
  }

  // ---------------------------------------------------------------------
  // The encoder object
  // ---------------------------------------------------------------------

  class Encoder {
    /** Minimum number of occurrences for an answer to get a slot. */
    var cutoff: int
    /** Number of training rows; encode's output height. */
    var m: nat
    /** The answer at every global position of the layout. */
    var indexToAns: seq<string>
    /** Per column, the local index of every retained answer. */
    var ansToIndex: seq<map<string, nat>>
    /** Per column, the number of retained answers (its block width). */
    var ansWidths: seq<nat>

    ghost predicate Valid()
      reads this
    {
      Consistent(indexToAns, ansToIndex, ansWidths) && NoSentinel(ansToIndex)
    }

    constructor (cutoff: int)
      ensures Valid()
      ensures this.cutoff == cutoff && m == 0
      ensures indexToAns == [] && ansToIndex == [] && ansWidths == []
    {
      this.cutoff := cutoff;
      m := 0;
      indexToAns := [];
      ansToIndex := [];
      ansWidths := [];
    }

    /** Builds the vocabulary from the training rows: counts the answers of
        every column (CountAnswers), then numbers those that meet the cutoff
        (AssignIndices). The column count is that of the second row. */
    method GenerateMapping(data: seq<Row>) returns (ita: seq<string>, w: seq<nat>, ati: seq<map<string, nat>>)
      requires |data| >= 2
      requires forall r, c :: 0 <= r < |data| && |data[1]| <= c < |data[r]| ==> data[r][c] == NA
      modifies this
      ensures Valid()
      ensures cutoff == old(cutoff) && m == |data|
      ensures indexToAns == ita && ansWidths == w && ansToIndex == ati
      ensures |ansWidths| == |data[1]|
      ensures forall i, v :: 0 <= i < |data[1]| ==> (v in ansToIndex[i] <==> Retained(data, i, v, cutoff))
    {
      m := |data|;
      var ansSets, countDicts := CountAnswers(data, |data[1]|);
      ita, w, ati := AssignIndices(ansSets, countDicts, cutoff);
      indexToAns := ita;
      ansWidths := w;
      ansToIndex := ati;
    }

    /** Encodes rows into an existence mask and a value matrix, both m by the
        total width, in place on zero-filled arrays. Row r's block for column j
        is all ones in the mask and one-hot at the answer's local index in the
        values when the answer is known (see EncodeColumn), and zero otherwise;
        rows past the end of the input stay zero. */
    method Encode(data: seq<Row>) returns (existence: array2<int>, values: array2<int>)
      requires Shaped(indexToAns, ansToIndex, ansWidths)
      requires |data| <= m
      requires forall r :: 0 <= r < |data| ==> |data[r]| <= |ansWidths|
      ensures fresh(existence) && fresh(values)
      ensures existence.Length0 == m && existence.Length1 == Sum(ansWidths)
      ensures values.Length0 == m && values.Length1 == Sum(ansWidths)
      ensures forall r, g :: 0 <= r < m && 0 <= g < Sum(ansWidths) ==>
                existence[r, g] == (if r < |data| then ExistenceRow(ansToIndex, ansWidths, data[r])[g] else 0)
      ensures forall r, g :: 0 <= r < m && 0 <= g < Sum(ansWidths) ==>
                values[r, g] == (if r < |data| then ValueRow(ansToIndex, ansWidths, data[r])[g] else 0)
    {
      var total := |indexToAns|;
      values := new int[m, total]((_, _) => 0);
      existence := new int[m, total]((_, _) => 0);
      var i := 0;
      while i < |data|
        invariant 0 <= i <= |data|
        invariant forall r, g :: 0 <= r < m && 0 <= g < total ==>
                    existence[r, g] == (if r < i then ExistenceRow(ansToIndex, ansWidths, data[r])[g] else 0)
        invariant forall r, g :: 0 <= r < m && 0 <= g < total ==>
                    values[r, g] == (if r < i then ValueRow(ansToIndex, ansWidths, data[r])[g] else 0)
      {
        EncodeRowInto(existence, values, i, data[i]);
        i := i + 1;
      }
    }

    /** The body of encode's row loop: writes row i of both matrices, block by
        block, advancing the running offset by each column's width. */
    method EncodeRowInto(existence: array2<int>, values: array2<int>, i: nat, row: Row)
      requires Shaped(indexToAns, ansToIndex, ansWidths)
      requires |row| <= |ansWidths|
      requires existence != values
      requires i < existence.Length0 && values.Length0 == existence.Length0
      requires existence.Length1 == Sum(ansWidths) && values.Length1 == Sum(ansWidths)
      requires forall g :: 0 <= g < Sum(ansWidths) ==> existence[i, g] == 0 && values[i, g] == 0
      modifies existence, values
      ensures forall r, g :: 0 <= r < existence.Length0 && 0 <= g < existence.Length1 ==>
                existence[r, g] == (if r == i then ExistenceRow(ansToIndex, ansWidths, row)[g] else old(existence[r, g]))
      ensures forall r, g :: 0 <= r < values.Length0 && 0 <= g < values.Length1 ==>
                values[r, g] == (if r == i then ValueRow(ansToIndex, ansWidths, row)[g] else old(values[r, g]))
    {
      ghost var eRow, vRow := ExistenceRow(ansToIndex, ansWidths, row), ValueRow(ansToIndex, ansWidths, row);
      var total := |indexToAns|;
      var mappedIndex := 0;
      var j := 0;
      while j < |row|
        invariant 0 <= j <= |row|
        invariant mappedIndex == Offset(ansWidths, j)
        invariant forall r, g :: 0 <= r < existence.Length0 && r != i && 0 <= g < total ==>
                    existence[r, g] == old(existence[r, g]) && values[r, g] == old(values[r, g])
        invariant forall g :: 0 <= g < total ==>
                    existence[i, g] == (if g < mappedIndex then eRow[g] else 0)
        invariant forall g :: 0 <= g < total ==>
                    values[i, g] == (if g < mappedIndex then vRow[g] else 0)
      {
        BlockWithin(ansWidths, j);
        WriteColumn(existence, values, i, row, j, mappedIndex);
        OffsetStep(ansWidths, j);
        mappedIndex := mappedIndex + ansWidths[j];
        j := j + 1;
      }
      forall g | mappedIndex <= g < total
        ensures eRow[g] == 0 && vRow[g] == 0
      {
        RowTailZero(ansToIndex, ansWidths, row, g);
      }
    }

    /** One step of encode's column loop: when column j of the row holds a
        known answer, its existence block becomes all ones and its value block
        gets a one at the answer's local index; every other cell is kept. */
    method WriteColumn(existence: array2<int>, values: array2<int>, i: nat, row: Row, j: nat, mappedIndex: nat)
      requires Shaped(indexToAns, ansToIndex, ansWidths)
      requires j < |row| <= |ansWidths|
      requires existence != values
      requires i < existence.Length0 && values.Length0 == existence.Length0
      requires existence.Length1 == Sum(ansWidths) && values.Length1 == Sum(ansWidths)
      requires mappedIndex == Offset(ansWidths, j) && mappedIndex + ansWidths[j] <= Sum(ansWidths)
      requires forall g :: mappedIndex <= g < mappedIndex + ansWidths[j] ==> existence[i, g] == 0 && values[i, g] == 0
      modifies existence, values
      ensures forall r, g :: 0 <= r < existence.Length0 && r != i && 0 <= g < existence.Length1 ==>
                existence[r, g] == old(existence[r, g]) && values[r, g] == old(values[r, g])
      ensures forall g :: 0 <= g < existence.Length1 ==>
                existence[i, g] == (if mappedIndex <= g < mappedIndex + ansWidths[j]
                                    then ExistenceRow(ansToIndex, ansWidths, row)[g] else old(existence[i, g]))
      ensures forall g :: 0 <= g < values.Length1 ==>
                values[i, g] == (if mappedIndex <= g < mappedIndex + ansWidths[j]
                                 then ValueRow(ansToIndex, ansWidths, row)[g] else old(values[i, g]))
    {
      var ans := row[j];
      RowBlocks(ansToIndex, ansWidths, row, j);
      ghost var eb, vb := ExistenceBlock(ansToIndex, ansWidths, row, j), ValueBlock(ansToIndex, ansWidths, row, j);
      assert forall p :: 0 <= p < ansWidths[j] ==> eb[p] == (if Known(ansToIndex, row, j) then 1 else 0);
      if ans != NA && ans in ansToIndex[j] {
        forall g | mappedIndex <= g < mappedIndex + ansWidths[j] {
          existence[i, g] := 1;
        }
        values[i, mappedIndex + ansToIndex[j][ans]] := 1;
      }
    }

    /** Decodes every row of a matrix: a zero-width column gives the sentinel,
        any other column the answer at the arg-max of its block. */
    method Decode(data: seq<seq<int>>) returns (answers: seq<Row>)
      requires |indexToAns| == Sum(ansWidths)
      requires forall r :: 0 <= r < |data| ==> Sum(ansWidths) <= |data[r]|
      ensures |answers| == |data|
      ensures forall r :: 0 <= r < |data| ==> answers[r] == DecodeRow(indexToAns, ansWidths, data[r])
    {
      answers := [];
      var r := 0;
      while r < |data|
        invariant 0 <= r <= |data|
        invariant |answers| == r
        invariant forall q :: 0 <= q < r ==> answers[q] == DecodeRow(indexToAns, ansWidths, data[q])
      {
        var reconstructedAns := DecodeOneRow(data[r]);
        answers := answers + [reconstructedAns];
        r := r + 1;
      }
    }

    /** The body of decode's row loop: one answer per column, the sentinel
        for a zero-width column and otherwise the answer at the arg-max of
        the column's block. */
    method DecodeOneRow(row: seq<int>) returns (reconstructedAns: Row)
      requires |indexToAns| == Sum(ansWidths) && Sum(ansWidths) <= |row|
      ensures reconstructedAns == DecodeRow(indexToAns, ansWidths, row)
    {
      reconstructedAns := [];
      var k := 0;
      while k < |ansWidths|
        invariant 0 <= k <= |ansWidths|
        invariant |reconstructedAns| == k
        invariant forall c :: 0 <= c < k ==> reconstructedAns[c] == DecodeAnswer(indexToAns, ansWidths, row, c)
      {
        BlockWithin(ansWidths, k);
        var startIndex := Offset(ansWidths, k);
        var endIndex := startIndex + ansWidths[k];
        if startIndex == endIndex {
          reconstructedAns := reconstructedAns + [NA];
        } else {
          var ansOh := row[startIndex..endIndex];
          var ansIndex := ArgMax(ansOh);
          reconstructedAns := reconstructedAns + [indexToAns[startIndex + ansIndex]];
        }
        k := k + 1;
      }
    }

    /** The columns of a matrix owned by column k: [Offset(k), Offset(k) + width),
        cut short, as a numpy slice is, where a row is narrower. */
    function KthPrunedFeature(data: seq<seq<int>>, k: nat): (r: seq<seq<int>>)
      reads this
      requires k < |ansWidths|
      ensures |r| == |data|
      ensures forall i :: 0 <= i < |data| && Sum(ansWidths) <= |data[i]| ==>
                r[i] == BlockOf(data[i], ansWidths, k)
    {
      BlockWithin(ansWidths, k);
      var startIndex := Offset(ansWidths, k);
      var endIndex := startIndex + ansWidths[k];
      seq(|data|, i requires 0 <= i < |data| =>
        data[i][Min(startIndex, |data[i]|)..Min(endIndex, |data[i]|)])
    }
  }

  // ---------------------------------------------------------------------
  // The two phases of generate_mapping
  // ---------------------------------------------------------------------

  /** The counting loops of generate_mapping: per column, the set of answers
      seen and how often each was seen, skipping the sentinel. A row may be
      longer than cols as long as its extra entries are the sentinel, which
      is skipped before the column is looked up. */
  method CountAnswers(data: seq<Row>, cols: nat) returns (ansSets: seq<set<string>>, countDicts: seq<map<string, nat>>)
    requires forall r, c :: 0 <= r < |data| && cols <= c < |data[r]| ==> data[r][c] == NA
    ensures |ansSets| == cols && |countDicts| == cols
    ensures forall c :: 0 <= c < cols ==> ansSets[c] == countDicts[c].Keys
    ensures forall c, v :: 0 <= c < cols ==> (v in countDicts[c] <==> v != NA && Count(data, c, v) > 0)
    ensures forall c, v :: 0 <= c < cols && v in countDicts[c] ==> countDicts[c][v] == Count(data, c, v)
  {
    ansSets := seq(cols, _ => {});
    countDicts := seq(cols, _ => map[]);
    var r := 0;
    while r < |data|
      invariant 0 <= r <= |data|
      invariant |ansSets| == cols && |countDicts| == cols
      invariant forall c :: 0 <= c < cols ==> ansSets[c] == countDicts[c].Keys
      invariant forall c, v :: 0 <= c < cols ==>
                  (v in countDicts[c] <==> v != NA && Count(data[..r], c, v) > 0)
      invariant forall c, v :: 0 <= c < cols && v in countDicts[c] ==>
                  countDicts[c][v] == Count(data[..r], c, v)
    {
      ansSets, countDicts := CountRow(ansSets, countDicts, data[r], cols, data[..r]);
      assert data[..r + 1][..r] == data[..r];
      r := r + 1;
    }
    assert data[..|data|] == data;
  }

  /** One pass of the counting loops over a row: every entry that is not the
      sentinel is added to its column's answer set and its count goes up by
      one. The counts so far are those of the rows before. */
  method CountRow(ansSets0: seq<set<string>>, countDicts0: seq<map<string, nat>>, row: Row, cols: nat, ghost before: seq<Row>)
    returns (ansSets: seq<set<string>>, countDicts: seq<map<string, nat>>)
    requires forall c :: cols <= c < |row| ==> row[c] == NA
    requires |ansSets0| == cols && |countDicts0| == cols
    requires forall c :: 0 <= c < cols ==> ansSets0[c] == countDicts0[c].Keys
    requires forall c, v :: 0 <= c < cols ==> (v in countDicts0[c] <==> v != NA && Count(before, c, v) > 0)
    requires forall c, v :: 0 <= c < cols && v in countDicts0[c] ==> countDicts0[c][v] == Count(before, c, v)
    ensures |ansSets| == cols && |countDicts| == cols
    ensures forall c :: 0 <= c < cols ==> ansSets[c] == countDicts[c].Keys
    ensures forall c, v :: 0 <= c < cols ==>
              (v in countDicts[c] <==> v != NA && Count(before + [row], c, v) > 0)
    ensures forall c, v :: 0 <= c < cols && v in countDicts[c] ==>
              countDicts[c][v] == Count(before + [row], c, v)
  {
    ansSets, countDicts := ansSets0, countDicts0;
    var i := 0;
    while i < |row|
      invariant 0 <= i <= |row|
      invariant |ansSets| == cols && |countDicts| == cols
      invariant forall c :: 0 <= c < cols ==> ansSets[c] == countDicts[c].Keys
      invariant forall c, v :: 0 <= c < cols ==>
                  (v in countDicts[c] <==> v != NA && (Count(before, c, v) > 0 || (c < i && row[c] == v)))
      invariant forall c, v :: 0 <= c < cols && v in countDicts[c] ==>
                  countDicts[c][v] == Count(before, c, v) + (if c < i && row[c] == v then 1 else 0)
    {
      var col := row[i];
      if col != NA {
        ansSets := ansSets[i := ansSets[i] + {col}];
        if col !in countDicts[i] {
          countDicts := countDicts[i := countDicts[i][col := 1]];
        } else {
          countDicts := countDicts[i := countDicts[i][col := countDicts[i][col] + 1]];
        }
      }
      i := i + 1;
    }
    assert (before + [row])[..|before|] == before;
  }

  /** The numbering loops of generate_mapping: every answer of column i whose
      count meets the cutoff gets the next local index of column i and is
      appended to index_to_ans. A column's answers are visited in an
      unspecified order (a Python set), so the local indices are any
      numbering of the retained answers; what is promised holds for every order. */
  method AssignIndices(ansSets: seq<set<string>>, countDicts: seq<map<string, nat>>, cutoff: int)
    returns (ita: seq<string>, w: seq<nat>, ati: seq<map<string, nat>>)
    requires |ansSets| == |countDicts|
    requires forall c :: 0 <= c < |ansSets| ==> ansSets[c] <= countDicts[c].Keys
    ensures |w| == |ansSets|
    ensures Consistent(ita, ati, w)
    ensures forall c, v :: 0 <= c < |w| ==> (v in ati[c] <==> v in ansSets[c] && countDicts[c][v] >= cutoff)
  {
    var cols := |ansSets|;
    ita := [];
    w := seq(cols, _ => 0);
    ati := seq(cols, _ => map[]);
    OffsetTailEmpty(w, 0);
    var i := 0;
    while i < cols
      invariant 0 <= i <= cols
      invariant |w| == cols && |ati| == cols
      invariant Consistent(ita, ati, w)
      invariant forall c :: i <= c < cols ==> w[c] == 0 && ati[c] == map[]
      invariant forall c, v :: 0 <= c < i ==>
                  (v in ati[c] <==> v in ansSets[c] && countDicts[c][v] >= cutoff)
    {
      var remaining := ansSets[i];
      while remaining != {}
        invariant remaining <= ansSets[i]
        invariant |w| == cols && |ati| == cols
        invariant Consistent(ita, ati, w)
        invariant forall c :: i < c < cols ==> w[c] == 0 && ati[c] == map[]
        invariant forall c, v :: 0 <= c < i ==>
                    (v in ati[c] <==> v in ansSets[c] && countDicts[c][v] >= cutoff)
        invariant forall v :: v in ati[i] <==>
                    v in ansSets[i] && v !in remaining && countDicts[i][v] >= cutoff
        decreases remaining
      {
        var ans :| ans in remaining;
        remaining := remaining - {ans};
        if countDicts[i][ans] >= cutoff {
          AppendKeepsConsistent(ita, ati, w, i, ans);
          ita := ita + [ans];
          ati := ati[i := ati[i][ans := w[i]]];
          w := w[i := w[i] + 1];
        }
      }
      i := i + 1;
    }
  }

  // ---------------------------------------------------------------------
  // Properties of the vocabulary
  // ---------------------------------------------------------------------

  /** The append step of generate_mapping: giving a new answer of column i the
      next local index, appending it to index_to_ans and widening column i
      keeps index_to_ans and ans_to_index in agreement, as long as the later
      columns are still empty. */
  lemma AppendKeepsConsistent(ita: seq<string>, ati: seq<map<string, nat>>, w: seq<nat>, i: nat, ans: string)
    requires Consistent(ita, ati, w)
    requires i < |w|
    requires forall c :: i < c < |w| ==> w[c] == 0 && ati[c] == map[]
    requires ans !in ati[i]
    ensures Consistent(ita + [ans], ati[i := ati[i][ans := w[i]]], w[i := w[i] + 1])
  {
    var ita', ati', w' := ita + [ans], ati[i := ati[i][ans := w[i]]], w[i := w[i] + 1];
    SumUpdate(w, i, w[i] + 1);
    OffsetTailEmpty(w, i + 1);
    OffsetStep(w, i);
    assert Offset(w, i) + w[i] == |ita|;
    assert Shaped(ita', ati', w');
    forall c | 0 <= c < |w|
      ensures BlockOf(ita', w', c) == BlockOf(ita, w, c) + (if c == i then [ans] else [])
    {
      if c <= i {
        OffsetUpdate(w, i, w[i] + 1, c);
        BlockWithin(w, c);
        BlockWithin(w', c);
      }
    }
    forall c, v | 0 <= c < |w'| && v in ati'[c]
      ensures BlockOf(ita', w', c)[ati'[c][v]] == v
    {
      if c != i || v != ans {
        assert BlockOf(ita, w, c)[ati[c][v]] == v;
      }
    }
    forall c, k | 0 <= c < |w'| && 0 <= k < w'[c]
      ensures BlockOf(ita', w', c)[k] in ati'[c] && ati'[c][BlockOf(ita', w', c)[k]] == k
    {
      if c != i || k != w[i] {
        assert BlockOf(ita, w, c)[k] in ati[c] && ati[c][BlockOf(ita, w, c)[k]] == k;
      }
    }
  }

  /** The sentinel never becomes a vocabulary entry: index_to_ans holds only
      keys of the column mappings, and those exclude the sentinel. */
  lemma SentinelNotInIndexToAns(ita: seq<string>, ati: seq<map<string, nat>>, w: seq<nat>)
    requires Consistent(ita, ati, w) && NoSentinel(ati)
    ensures NA !in ita
  {
    forall g | 0 <= g < |ita|
      ensures ita[g] != NA
    {
      var j, p := Locate(w, g);
      BlockWithin(w, j);
      assert BlockOf(ita, w, j)[p] == ita[g];
    }
  }

  /** A sequence without repeated entries has as many distinct entries as it is long. */
  lemma {:induction false} DistinctCount(s: seq<string>)
    requires forall a, b :: 0 <= a < b < |s| ==> s[a] != s[b]
    ensures |set x | x in s| == |s|
  {
    if s != [] {
      var n := |s| - 1;
      DistinctCount(s[..n]);
      assert (set x | x in s) == (set x | x in s[..n]) + {s[n]};
    }
  }

  /** In a consistent vocabulary the local indices of column i are exactly
      0 .. w[i] - 1, each given to one answer, so the column has w[i] answers. */
  lemma LocalIndicesExact(ita: seq<string>, ati: seq<map<string, nat>>, w: seq<nat>, i: nat)
    requires Consistent(ita, ati, w) && i < |w|
    ensures forall k :: k in ati[i].Values <==> 0 <= k < w[i]
    ensures forall u, v :: u in ati[i] && v in ati[i] && u != v ==> ati[i][u] != ati[i][v]
    ensures |ati[i]| == w[i]
  {
    var b := BlockOf(ita, w, i);
    forall k | 0 <= k < w[i]
      ensures k in ati[i].Values
    {
      assert b[k] in ati[i] && ati[i][b[k]] == k;
    }
    assert ati[i].Keys == set x | x in b;
    DistinctCount(b);
  }

  // ---------------------------------------------------------------------
  // Properties of encode and decode
  // ---------------------------------------------------------------------

  /** Global position g in block j of an encoded row holds the block's entry g - Offset(j). */
  lemma RowBlocks(ati: seq<map<string, nat>>, w: seq<nat>, row: Row, j: nat)
    requires |ati| == |w| && j < |w|
    ensures Offset(w, j) + w[j] <= Sum(w)
    ensures forall g :: Offset(w, j) <= g < Offset(w, j) + w[j] ==>
              ValueRow(ati, w, row)[g] == ValueBlock(ati, w, row, j)[g - Offset(w, j)]
    ensures forall g :: Offset(w, j) <= g < Offset(w, j) + w[j] ==>
              ExistenceRow(ati, w, row)[g] == ExistenceBlock(ati, w, row, j)[g - Offset(w, j)]
  {
    var vb, eb := ValueBlocks(ati, w, row), ExistenceBlocks(ati, w, row);
    ConcatRange(vb, w, j);
    ConcatRange(eb, w, j);
    assert vb[j] == ValueBlock(ati, w, row, j);
    assert eb[j] == ExistenceBlock(ati, w, row, j);
  }

  /** Past the blocks of the columns a short row has, its encoding is zero. */
  lemma RowTailZero(ati: seq<map<string, nat>>, w: seq<nat>, row: Row, g: nat)
    requires |ati| == |w| && |row| <= |w|
    requires Offset(w, |row|) <= g < Sum(w)
    ensures ValueRow(ati, w, row)[g] == 0 && ExistenceRow(ati, w, row)[g] == 0
  {
    var j, p := Locate(w, g);
    LocateAfter(w, |row|, g, j, p);
    RowBlocks(ati, w, row, j);
  }

  /** What encode writes into column j's block: all ones in the mask and a
      single one, at the answer's local index, in the values when the answer is
      known; zeros in both otherwise. */
  lemma EncodeColumn(ita: seq<string>, ati: seq<map<string, nat>>, w: seq<nat>, row: Row, j: nat)
    requires Consistent(ita, ati, w) && j < |w|
    ensures Known(ati, row, j) ==> ati[j][row[j]] < w[j]
    ensures Known(ati, row, j) ==>
              && (forall p :: 0 <= p < w[j] ==> BlockOf(ExistenceRow(ati, w, row), w, j)[p] == 1)
              && BlockOf(ValueRow(ati, w, row), w, j)[ati[j][row[j]]] == 1
              && (forall p :: 0 <= p < w[j] && p != ati[j][row[j]] ==> BlockOf(ValueRow(ati, w, row), w, j)[p] == 0)
    ensures !Known(ati, row, j) ==>
              forall p :: 0 <= p < w[j] ==>
                BlockOf(ExistenceRow(ati, w, row), w, j)[p] == 0 && BlockOf(ValueRow(ati, w, row), w, j)[p] == 0
  {
    ConcatBlock(ValueBlocks(ati, w, row), w, j);
    ConcatBlock(ExistenceBlocks(ati, w, row), w, j);
  }

  /** Decoding an encoded row, column by column: the sentinel for a zero-width
      column, the original answer for a known one, and the answer at local
      index 0 when the answer was missing, the sentinel or filtered out. */
  lemma DecodeEncoded(ita: seq<string>, ati: seq<map<string, nat>>, w: seq<nat>, row: Row, k: nat)
    requires Consistent(ita, ati, w) && k < |w|
    ensures DecodeAnswer(ita, w, ValueRow(ati, w, row), k) ==
              if w[k] == 0 then NA
              else if Known(ati, row, k) then row[k]
              else BlockOf(ita, w, k)[0]
  {
    var values := ValueRow(ati, w, row);
    EncodeColumn(ita, ati, w, row, k);
    if w[k] != 0 {
      var block := BlockOf(values, w, k);
      var a := ArgMax(block);
      if Known(ati, row, k) {
        var p := ati[k][row[k]];
        assert block[p] == 1 <= block[a];
      } else {
        assert block[0] == 0;
      }
      BlockWithin(w, k);
    }
  }

  /** decode(encode(row)) == row for a row whose every answer is retained. */
  lemma RoundTrip(ita: seq<string>, ati: seq<map<string, nat>>, w: seq<nat>, row: Row)
    requires Consistent(ita, ati, w) && NoSentinel(ati)
    requires |row| == |w|
    requires forall j :: 0 <= j < |w| ==> row[j] in ati[j]
    ensures DecodeRow(ita, w, ValueRow(ati, w, row)) == row
  {
    forall k | 0 <= k < |w|
      ensures DecodeAnswer(ita, w, ValueRow(ati, w, row), k) == row[k]
    {
      DecodeEncoded(ita, ati, w, row, k);
      assert ati[k][row[k]] < w[k];
    }
  }

  /** In a valid vocabulary decode yields the sentinel for column k exactly
      when column k has width zero, whatever the matrix row. */
  lemma DecodeSentinelIff(ita: seq<string>, ati: seq<map<string, nat>>, w: seq<nat>, row: seq<int>, k: nat)
    requires Consistent(ita, ati, w) && NoSentinel(ati)
    requires Sum(w) <= |row| && k < |w|
    ensures DecodeAnswer(ita, w, row, k) == NA <==> w[k] == 0
  {
    if w[k] != 0 {
      var a := ArgMax(BlockOf(row, w, k));
      BlockWithin(w, k);
      assert BlockOf(ita, w, k)[a] in ati[k];
    }
  }

  /** kth_pruned_feature of an encoded matrix is column k's encoded block, row by row. */
  lemma KthOfEncoded(e: Encoder, rows: seq<Row>, k: nat)
    requires e.Valid() && k < |e.ansWidths|
    ensures var ati, w := e.ansToIndex, e.ansWidths;
            var matrix := seq(|rows|, r requires 0 <= r < |rows| => ValueRow(ati, w, rows[r]));
            forall i :: 0 <= i < |rows| ==> e.KthPrunedFeature(matrix, k)[i] == ValueBlock(ati, w, rows[i], k)
  {
    forall i | 0 <= i < |rows|
      ensures BlockOf(ValueRow(e.ansToIndex, e.ansWidths, rows[i]), e.ansWidths, k)
                == ValueBlock(e.ansToIndex, e.ansWidths, rows[i], k)
    {
      ConcatBlock(ValueBlocks(e.ansToIndex, e.ansWidths, rows[i]), e.ansWidths, k);
    }
  }
}
