/**
  The classes of cellmaps_downloader/gene.py that do the gene-identifier
  bookkeeping: the static accumulator of `GeneNodeAttributeGenerator`, and the
  edge-list and lookup-result loops of `APMSGeneNodeAttributeGenerator`.
 */
module Gene {
  import opened Wrappers
  import opened GeneIdSplit
  import opened GeneSpec

  /** A Python `set` of gene identifiers, owned by the caller and updated in place. */
  class GeneSet {
    var elements: set<string>

    constructor ()
      ensures elements == {}
    {
      elements := {};
    }
  }

  /** A Python `dict` from a gene identifier to the raw identifier it was split from, updated in place. */
  class AmbiguousGeneDict {
    var entries: map<string, string>

    constructor ()
      ensures entries == map[]
    {
      entries := map[];
    }
  }

  /** Python's `list(s)`: the elements of a set, each once, in an order the model leaves open. */
  method ListOf(s: set<string>) returns (r: seq<string>)
    ensures Elements(r) == s
    ensures NoDuplicates(r)
    ensures |r| == |s|
  {
    r := [];
    var rest := s;
    while rest != {}
      invariant Elements(r) + rest == s
      invariant Elements(r) !! rest
      invariant NoDuplicates(r)
      invariant |r| + |rest| == |s|
      decreases |rest|
    {
      var x :| x in rest;
      r := r + [x];
      rest := rest - {x};
    }
  }

  class GeneNodeAttributeGenerator {

    /**
      Splits `geneId` at every comma (with the non-word characters around it),
      adds the tokens to `geneSet` and, when there is more than one token, keys
      each token to the whole `geneId` in `ambiguousGeneDict`. A missing set or a
      missing identifier makes the call a no-op that returns None.
     */
    static method AddGeneIdsToSet(geneSet: GeneSet?, ambiguousGeneDict: AmbiguousGeneDict?, geneId: Option<string>)
      returns (splitStr: Option<seq<string>>)
      modifies geneSet, ambiguousGeneDict
      ensures geneSet == null || geneId.None? ==> splitStr.None?
      ensures geneSet != null && geneId.Some? ==> splitStr == Some(Split(geneId.value))
      ensures geneSet != null ==> geneSet.elements == old(geneSet.elements) + Elements(Tokens(geneId))
      ensures ambiguousGeneDict != null && geneSet == null ==>
                ambiguousGeneDict.entries == old(ambiguousGeneDict.entries)
      ensures ambiguousGeneDict != null && geneSet != null ==>
                ambiguousGeneDict.entries == RecordAmbiguity(old(ambiguousGeneDict.entries), geneId)
    {
      if geneSet == null {
        return None;
      }
      if geneId.None? {
        return None;
      }
      var raw := geneId.value;
      var tokens := Split(raw);
      geneSet.elements := geneSet.elements + Elements(tokens);
      if ambiguousGeneDict != null {
        if |tokens| > 1 {
          for k := 0 to |tokens|
            modifies ambiguousGeneDict
            invariant ambiguousGeneDict.entries == KeyAll(old(ambiguousGeneDict.entries), tokens[..k], raw)
          {
            assert tokens[..k + 1] == tokens[..k] + [tokens[k]];
            KeyAllSnoc(old(ambiguousGeneDict.entries), tokens[..k], tokens[k], raw);
            ambiguousGeneDict.entries := ambiguousGeneDict.entries[tokens[k] := raw];
          }
          assert tokens[..|tokens|] == tokens;
        }
      }
      return Some(tokens);
    }
  }

  class APMSGeneNodeAttributeGenerator {
    var apmsEdgelist: Option<string>
    var apmsBaitlist: Option<string>

    /** Stores the edge-list and bait-list locations; nothing is read here. */
    constructor (apmsEdgelist: Option<string>, apmsBaitlist: Option<string>)
      ensures this.apmsEdgelist == apmsEdgelist && this.apmsBaitlist == apmsBaitlist
    {
      this.apmsEdgelist := apmsEdgelist;
      this.apmsBaitlist := apmsBaitlist;
    }

    /**
      The distinct gene identifiers of both endpoints of every edge, and the
      ambiguity dict built on the way; a later identifier overwrites an earlier
      one's entry for the same token.
     */
    method UniqueGenelistFromEdgelist(edgelist: seq<EdgeRow>) returns (genes: seq<string>, ambiguousGeneDict: map<string, string>)
      ensures Elements(genes) == GenesOf(EndpointIds(edgelist))
      ensures NoDuplicates(genes)
      ensures ambiguousGeneDict == AmbiguityOf(EndpointIds(edgelist))
      ensures edgelist == [] ==> genes == [] && ambiguousGeneDict == map[]
    {
      var geneSet := new GeneSet();
      var ambiguous := new AmbiguousGeneDict();
      for r := 0 to |edgelist|
        invariant geneSet.elements == GenesOf(EndpointIds(edgelist[..r]))
        invariant ambiguous.entries == AmbiguityOf(EndpointIds(edgelist[..r]))
      {
        var row := edgelist[r];
        RowStep(edgelist, r);
        var split1 := GeneNodeAttributeGenerator.AddGeneIdsToSet(geneSet, ambiguous, row.geneId1);
        var split2 := GeneNodeAttributeGenerator.AddGeneIdsToSet(geneSet, ambiguous, row.geneId2);
      }
      assert edgelist[..|edgelist|] == edgelist;
      genes := ListOf(geneSet.elements);
      ambiguousGeneDict := ambiguous.entries;
    }

    /**
      The Ensembl part of the loop body for one result: a new symbol gets the
      entry `ensembl:`, and then the result's hits, if any, are appended.
     */
    static method AddEnsembl(d: map<string, string>, x: QueryResult) returns (d': map<string, string>)
      requires WellFormed(x)
      ensures d' == d[x.symbol.value := EnsemblStart(d, x.symbol.value) + EnsemblSuffix(x.ensembl)]
    {
      var symbol := x.symbol.value;
      d' := d;
      if symbol !in d' {
        d' := d'[symbol := "ensembl:"];
      }
      assert d' == d[symbol := EnsemblStart(d, symbol)];
      if x.ensembl.Absent? {
        assert EnsemblStart(d, symbol) + EnsemblSuffix(x.ensembl) == EnsemblStart(d, symbol);
        return;
      }
      if EnsemblLength(x.ensembl) > 1 {
        d' := AppendGenes(d', symbol, x.ensembl.genes);
      } else {
        d' := d'[symbol := d'[symbol] + x.ensembl.gene];
      }
    }

    /** The loop over a multi-valued hit: appends each gene and a `;` to the entry of `symbol`. */
    static method AppendGenes(d: map<string, string>, symbol: string, gs: seq<string>)
      returns (d': map<string, string>)
      requires symbol in d
      ensures d' == d[symbol := d[symbol] + Terminated(gs)]
    {
      d' := d;
      assert Terminated(gs[..0]) == "";
      assert d[symbol] + "" == d[symbol];
      for k := 0 to |gs|
        invariant d' == d[symbol := d[symbol] + Terminated(gs[..k])]
      {
        assert gs[..k + 1] == gs[..k] + [gs[k]];
        TerminatedSnoc(gs[..k], gs[k]);
        assert d[symbol] + Terminated(gs[..k + 1]) == d[symbol] + Terminated(gs[..k]) + gs[k] + ";";
        d' := d'[symbol := d'[symbol] + gs[k] + ";"];
      }
      assert gs[..|gs|] == gs;
    }

    /**
      Folds the lookup results into three dicts: query to symbol and symbol to
      query (the last result wins), and symbol to its Ensembl string, which
      starts with `ensembl:` when the symbol is first seen and then gets every
      later result's Ensembl IDs appended.
     */
    method QuerySymbolDicts(queryRes: seq<QueryResult>)
      returns (symbolEnsemblDict: map<string, string>, querySymbolDict: map<string, string>,
               symbolQueryDict: map<string, string>)
      requires AllWellFormed(queryRes)
      ensures symbolEnsemblDict == SymbolEnsemblOf(queryRes)
      ensures querySymbolDict == QuerySymbolOf(queryRes)
      ensures symbolQueryDict == SymbolQueryOf(queryRes)
      ensures querySymbolDict.Keys == Queries(queryRes)
      ensures forall j :: 0 <= j < |queryRes| && LastWithQuery(queryRes, j) ==>
                queryRes[j].query in querySymbolDict && Some(querySymbolDict[queryRes[j].query]) == queryRes[j].symbol
      ensures symbolQueryDict.Keys == Symbols(queryRes)
      ensures forall j :: 0 <= j < |queryRes| && LastWithSymbol(queryRes, j) ==>
                queryRes[j].symbol.value in symbolQueryDict && symbolQueryDict[queryRes[j].symbol.value] == queryRes[j].query
      ensures symbolEnsemblDict.Keys == Symbols(queryRes)
      ensures forall s :: s in symbolEnsemblDict ==> symbolEnsemblDict[s] == "ensembl:" + EnsemblFor(queryRes, s)
    {
      symbolEnsemblDict, querySymbolDict, symbolQueryDict := map[], map[], map[];
      for i := 0 to |queryRes|
        invariant symbolEnsemblDict == SymbolEnsemblOf(queryRes[..i])
        invariant querySymbolDict == QuerySymbolOf(queryRes[..i])
        invariant symbolQueryDict == SymbolQueryOf(queryRes[..i])
      {
        var x := queryRes[i];
        QueryDictsStep(queryRes, i);
        var symbol := x.symbol.value;
        querySymbolDict := querySymbolDict[x.query := symbol];
        symbolQueryDict := symbolQueryDict[symbol := x.query];
        symbolEnsemblDict := AddEnsembl(symbolEnsemblDict, x);
      }
      assert queryRes[..|queryRes|] == queryRes;
      QueryDicts(queryRes);
    }
  }
}
