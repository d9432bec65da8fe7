/** The cell-group ranking of the cell indications report
    (`api/ResnetAPI/CellIndications.py`): `rank_cells` and the two ontology
    constants it is used with. */
module CellIndications {

  /** `CELL_ONTOLOGY`: the cell types of each cell group. */
  const CELL_ONTOLOGY: map<string, seq<string>> := map[
    "KLRG1+cells" := ["KLRG1", "KLRG1+T cells", "KLRG1+cells", "TemRA", "Early Effector Cell", "resident memory T-cell", "T-cell aging", "KLRG1 overexpresssion", "antigen specific cytotoxic T-cell", "KLRG1+cells cell-mediated cytotoxicity"],
    "KLRG1+CD8+" := ["KLRG1+CD8+TEX", "CD8+TemRA", "KLRG1+CD8+ cells", "KLRG1+CD8+ MAIT cells", "KLRG1+CD8+TCMs", "KLRG1+CD8+TCMs", "KLRG1+TRMs", "short-lived effector cells", "exhausted CD8+T-cell", "senescent CD8+ T-cell"],
    "KLRG1+CD4+" := ["CD4+Temra", "KLRG1+ CD4+ cells", "exhausted CD4+T-cell", "CD4+ cytotoxic T-cell", "senescent CD4+ T-cell"],
    "CD8+" := ["CD8+ T-cell", "effector memory CD8+ T-cell", "activated CD8+ T-cell", "CD8+TRMs", "large granular lymphocyte", "CD8+ memory T-cell"],
    "CD4+" := ["helper T-cell", "Th1 cell", "CD4+TRMs", "CD4+ memory T-cell", "activated CD4+ T-cell"],
    "KLRG1+gammadelta" := ["TEMRA Vd2pos", "TEMRA Vd1", "TEMRA gd"],
    "gammadelta" := ["gammadelta T-cell", "Vg9/Vd2 T-cell"],
    "KLRG1+NKTs" := ["KLRG1", "KLRG1+cells", "KLRG1+T cells", "KLRG1+ NKTs", "KLRG1+iNKTs", "CD8+ NKT-like cell", "NKT-like cell"],
    "NKTs" := ["natural killer T-cell", "CD8+ NK T-cell", "activated CD8+ NK T-cell", "activated NKT-like cell", "CD56+ T-cell", "NKTfh"],
    "KLRG1+NKs" := ["KLRG1", "KLRG1+cells", "KLRG1+ NKs"],
    "NKs" := ["CD56+CD8+TEMs", "natural killer cell", "CD56+ natural killer cell", "activated natural killer cell", "CD57+ natural killer cell", "killer cell", "memory-like natural killer cell", "natural killer cell precursor"],
    "KLRG1+ILCs" := ["KLRG1+ ICL2", "KLRG1", "KLRG1+cells"],
    "ILC2s" := ["group 2 innate lymphoid cell"],
    "ILCs" := ["innate lymphoid cell"],
    "Teff" := ["activated T-cell", "cytotoxic T-cell", "effector memory T-cell", "effector T-cell", "exhausted T-cell"],
    "T-cells" := ["senescent T-cell", "naive T-cell", "memory T-cell", "central memory T-cell", "alphabeta T-cell", "T-cell"],
    "Leukocytes" := ["immunocompetent cell", "mononuclear cell", "spleen cell", "myeloid cell", "PBMC", "peripheral lymphocyte", "lymphocyte", "cytotoxic lymphocyte", "effector cell", "memory cell", "immunosenescence"],
    "KLRG1+Tregs" := ["KLRG1+ Tregs", "KLRG1+ Tfh"],
    "Tregs" := ["highly suppressive regulatory T-cell", "inducible CD4+CD25+ regulatory T-cell", "regulatory T-cell", "CD8+ regulatory T-cell", "CCR3+ CD8+ regulatory T-cell", "CD122+ CD8+ regulatory T-cell", "CD25+ CD8+ regulatory T-cell", "CD28- CD8+ regulatory T-cell", "suppressor-inducer T-cell", "effector/activated regulatory T-cell", "extralymphoid regulatory T-cell", "Qa-1 restricted regulatory T-cell", "CD4+ CD25- FOXP3+ T-cell", "memory regulatory T-cell", "naive regulatory T-cell", "CD4+ CD25+ regulatory T-cell", "Tr1 cell"]
  ]

  /** `RANKED_CELL_ONTOLOGY` */
  const RANKED_CELL_ONTOLOGY: map<string, int> := map[
    "KLRG1+cells" := 0, "KLRG1+CD8+" := 0, "KLRG1+CD4+" := 0, "CD8+" := 1, "CD4+" := 1, "Teff" := 2, "T-cells" := 3
  ]

  /** The argument of `rank_cells`: a dictionary of ranks, or a list whose
      positions are the ranks. */
  datatype CellGroups = Ranked(ranks: map<string, int>) | Listed(groups: seq<string>)

  /** `rank_cells(cell_ontology)` against the ontology `ontology`. */
  function RankCells(ontology: map<string, seq<string>>, input: CellGroups): (r: map<(string, int), seq<string>>)
    ensures forall k :: k in r ==> k.0 in ontology && r[k] == ontology[k.0]
    ensures input.Ranked? ==> forall k :: k in r <==> k.0 in input.ranks && k.0 in ontology && k.1 == input.ranks[k.0]
    ensures input.Listed? ==> forall k :: k in r <==>
      0 <= k.1 < |input.groups| && input.groups[k.1] == k.0 && k.0 in ontology
  {
    match input
    case Ranked(ranks) =>
      map co | co in ranks && co in ontology :: (co, ranks[co]) := ontology[co]
    case Listed(groups) =>
      map rank | 0 <= rank < |groups| && groups[rank] in ontology :: (groups[rank], rank) := ontology[groups[rank]]
  }

  function InputSize(input: CellGroups): nat
  {
    match input
    case Ranked(ranks) => |ranks|
    case Listed(groups) => |groups|
  }

  /** The output never has more entries than the input. */
  lemma RankCellsSize(ontology: map<string, seq<string>>, input: CellGroups)
    ensures |RankCells(ontology, input)| <= InputSize(input)
  {
    match input
    case Ranked(ranks) => RankedSize(ontology, ranks);
    case Listed(groups) => ListedSize(ontology, groups);
  }

  lemma {:induction false} RankedSize(ontology: map<string, seq<string>>, ranks: map<string, int>)
    ensures |RankCells(ontology, Ranked(ranks))| <= |ranks|
    decreases |ranks|
  {
    if ranks != map[] {
      var co :| co in ranks;
      var rest := ranks - {co};
      RankedSize(ontology, rest);
      RankedKeysStep(ontology, ranks, co);
      assert |rest| == |ranks| - 1;
      SubsetSize(RankCells(ontology, Ranked(ranks)).Keys, RankCells(ontology, Ranked(rest)).Keys + {(co, ranks[co])});
    }
  }

  /** Removing one group `co` from a rank dictionary removes at most the entry
      `(co, rank)`, and exactly that one when `co` is known. */
  lemma RankedKeysStep(ontology: map<string, seq<string>>, ranks: map<string, int>, co: string)
    requires co in ranks
    ensures var big, small, x := RankCells(ontology, Ranked(ranks)).Keys, RankCells(ontology, Ranked(ranks - {co})).Keys, (co, ranks[co]);
      big <= small + {x} && x !in small && (co in ontology ==> big == small + {x})
  {
    var rest := ranks - {co};
    var r1, r0 := RankCells(ontology, Ranked(ranks)), RankCells(ontology, Ranked(rest));
    var x := (co, ranks[co]);
    forall k | k in r1 ensures k in r0 || k == x {
      if k.0 != co {
        assert k.0 in rest;
      }
    }
    forall k | k in r0 ensures k in r1 {
      assert k.0 in rest;
    }
  }

  lemma {:induction false} ListedSize(ontology: map<string, seq<string>>, groups: seq<string>)
    ensures |RankCells(ontology, Listed(groups))| <= |groups|
    decreases |groups|
  {
    if groups != [] {
      var n := |groups| - 1;
      ListedSize(ontology, groups[..n]);
      ListedKeysStep(ontology, groups);
      SubsetSize(RankCells(ontology, Listed(groups)).Keys,
                 RankCells(ontology, Listed(groups[..n])).Keys + {(groups[n], n)});
    }
  }

  /** Appending one group adds at most the entry for its own position. */
  lemma ListedKeysStep(ontology: map<string, seq<string>>, groups: seq<string>)
    requires groups != []
    ensures var n := |groups| - 1;
      RankCells(ontology, Listed(groups)).Keys <= RankCells(ontology, Listed(groups[..n])).Keys + {(groups[n], n)}
  {
    var n := |groups| - 1;
    var init := groups[..n];
    var r1, r0 := RankCells(ontology, Listed(groups)), RankCells(ontology, Listed(init));
    forall k | k in r1 ensures k in r0 || k == (groups[n], n) {
      if k.1 < n {
        assert init[k.1] == k.0;
      }
    }
  }

  lemma SubsetSize<T>(a: set<T>, b: set<T>)
    requires a <= b
    ensures |a| <= |b|
  {
    assert b == a + (b - a);
  }

  lemma KnownGroupsA()
    ensures "KLRG1+cells" in CELL_ONTOLOGY && "KLRG1+CD8+" in CELL_ONTOLOGY && "KLRG1+CD4+" in CELL_ONTOLOGY
  {
  }

  lemma KnownGroupsB()
    ensures "CD8+" in CELL_ONTOLOGY && "CD4+" in CELL_ONTOLOGY
  {
  }

  lemma KnownGroupsC()
    ensures "Teff" in CELL_ONTOLOGY && "T-cells" in CELL_ONTOLOGY
  {
  }

  lemma UnknownMonocytes()
    ensures "Monocytes" !in CELL_ONTOLOGY
  {
  }

  /** When every group of a rank dictionary is known, each gets exactly one entry. */
  lemma {:induction false} RankedAllKnown(ontology: map<string, seq<string>>, ranks: map<string, int>)
    requires forall g :: g in ranks ==> g in ontology
    ensures |RankCells(ontology, Ranked(ranks))| == |ranks|
    decreases |ranks|
  {
    if ranks != map[] {
      var co :| co in ranks;
      var rest := ranks - {co};
      RankedAllKnown(ontology, rest);
      RankedKeysStep(ontology, ranks, co);
      assert |rest| == |ranks| - 1;
    }
  }

  /** Every group of `RANKED_CELL_ONTOLOGY` is known, so each is ranked, with
      its own rank, and nothing else is. */
  lemma RankedCellOntology()
    ensures forall g :: g in RANKED_CELL_ONTOLOGY ==>
      (g, RANKED_CELL_ONTOLOGY[g]) in RankCells(CELL_ONTOLOGY, Ranked(RANKED_CELL_ONTOLOGY))
    ensures |RankCells(CELL_ONTOLOGY, Ranked(RANKED_CELL_ONTOLOGY))| == |RANKED_CELL_ONTOLOGY|
  {
    forall g | g in RANKED_CELL_ONTOLOGY ensures g in CELL_ONTOLOGY {
      KnownGroupsA();
      KnownGroupsB();
      KnownGroupsC();
    }
    RankedAllKnown(CELL_ONTOLOGY, RANKED_CELL_ONTOLOGY);
  }

  /** In the list form a group's rank is its position in the list, so an
      unknown group leaves a gap: here the second position is skipped. */
  lemma ListedRanksHaveGaps()
    ensures RankCells(CELL_ONTOLOGY, Listed(["CD8+", "Monocytes", "CD4+"])).Keys == {("CD8+", 0), ("CD4+", 2)}
  {
    KnownGroupsB();
    UnknownMonocytes();
    ListedGap(CELL_ONTOLOGY, "CD8+", "Monocytes", "CD4+");
  }

  lemma ListedGap(ontology: map<string, seq<string>>, a: string, b: string, c: string)
    requires a in ontology && b !in ontology && c in ontology
    ensures RankCells(ontology, Listed([a, b, c])).Keys == {(a, 0), (c, 2)}
  {
    var r := RankCells(ontology, Listed([a, b, c]));
    forall k | k in r ensures k == (a, 0) || k == (c, 2) {
      assert k.1 == 0 || k.1 == 1 || k.1 == 2;
    }
    assert (a, 0) in r && (c, 2) in r;
  }
}
