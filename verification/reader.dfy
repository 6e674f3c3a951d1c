/** `GlossaryInputDataReader`: one entry per record node of a parsed content file. The XPath
    engine's answers for the document are a `XPathView`; a missing answer is a failed query,
    and every failure of a read surfaces as `ReadFailed` for the file. */
module Reader {
  import opened Results
  import opened Text
  import opened Foreign
  import opened Entries
  import opened Xhtml
  import opened Extraction

  /** What the status log says after the card's name for an empty sort field. */
  const EmptyPhraseNotice: string := " contains a card with an empty phrase!"

  /** The reader's configuration: a `None` query is a property left null. */
  datatype ReaderConfig = ReaderConfig(
    languageCodeL1Query: Option<string>,
    languageCodeL2Query: Option<string>,
    collectionQuery: Option<string>,
    sideOneSoundQuery: Option<string>,
    sideTwoSoundQuery: Option<string>,
    nameQuery: Option<string>,
    partOfSpeechQuery: Option<string>,
    sortFieldsL1Queries: seq<string>,
    sortFieldsL2Queries: seq<string>,
    includeQueries: map<string, string>,
    applyMarsocRules: bool,
    applyInternalRules: bool)

  /** A reader as constructed: no queries, empty lists and map, standard rules. */
  function NewReaderConfig(): (cfg: ReaderConfig)
    ensures cfg.collectionQuery.None? && cfg.nameQuery.None?
    ensures cfg.languageCodeL1Query.None? && cfg.languageCodeL2Query.None?
    ensures cfg.sideOneSoundQuery.None? && cfg.sideTwoSoundQuery.None? && cfg.partOfSpeechQuery.None?
    ensures cfg.sortFieldsL1Queries == [] && cfg.sortFieldsL2Queries == [] && cfg.includeQueries == map[]
    ensures !cfg.applyMarsocRules && !cfg.applyInternalRules
  {
    ReaderConfig(None, None, None, None, None, None, None, [], [], map[], false, false)
  }

  /** The input file: its path as listed (`getPath`, what the extraction strategies read),
      its absolute path (`getAbsolutePath`, what a read failure names) and the platform's
      file separator. */
  datatype InputFile = InputFile(path: string, absolutePath: string, separator: string)

  /** What every node of one document shares: the two language codes and the list name. */
  datatype DocumentInfo = DocumentInfo(codeL1: Option<string>, codeL2: Option<string>, listName: string)

  /** The entries, in node order, and the empty-phrase notices the read logged. */
  datatype ReadResult = ReadResult(entries: seq<SortObject>, notices: seq<string>)

  /** Text the cleaning cannot touch: no markup characters, no surrounding blanks. */
  predicate IsPlainField(raw: string) {
    NoneIn(raw, {'<', '&', ']'}) && (raw != [] ==> !IsTrimmable(raw[0]) && !IsTrimmable(raw[|raw| - 1]))
  }

  /** A sort or include field as stored: trimmed, then stripped of markup. */
  function CleanField(raw: string): (clean: string)
    ensures |clean| <= |raw|
    ensures IsPlainField(raw) ==> clean == raw
  {
    TrimIsInfix(raw);
    assert IsPlainField(raw) ==> StripXhtml(Trim(raw)) == raw by {
      if IsPlainField(raw) {
        TrimUntrimmed(raw);
        StripXhtmlPlain(raw);
      }
    }
    StripXhtml(Trim(raw))
  }

  /** A language code: the trimmed, upper-cased answer of its query, null without a query. */
  function QueryLanguageCode(env: Env, xp: XPathView, query: Option<string>): (r: Option<Option<string>>)
    ensures query.None? ==> r == Some(None)
    ensures query.Some? ==> (r.None? <==> xp.stringAt(query.value).None?)
    ensures query.Some? && r.Some? ==> r.value == Some(env.upperDefault(Trim(xp.stringAt(query.value).value)))
  {
    match query
    case None => Some(None)
    case Some(q) =>
      match xp.stringAt(q)
      case None => None
      case Some(v) => Some(Some(env.upperDefault(Trim(v))))
  }

  /** The document-level answers; the list name is "" when no name query is set. */
  function QueryDocument(env: Env, xp: XPathView, cfg: ReaderConfig): (r: Option<DocumentInfo>)
    ensures r.Some? <==> QueryLanguageCode(env, xp, cfg.languageCodeL1Query).Some?
                         && QueryLanguageCode(env, xp, cfg.languageCodeL2Query).Some?
                         && (cfg.nameQuery.Some? ==> xp.stringAt(cfg.nameQuery.value).Some?)
    ensures r.Some? ==> r.value.codeL1 == QueryLanguageCode(env, xp, cfg.languageCodeL1Query).value
    ensures r.Some? ==> r.value.codeL2 == QueryLanguageCode(env, xp, cfg.languageCodeL2Query).value
    ensures r.Some? && cfg.nameQuery.None? ==> r.value.listName == []
  {
    match (QueryLanguageCode(env, xp, cfg.languageCodeL1Query), QueryLanguageCode(env, xp, cfg.languageCodeL2Query))
    case (Some(c1), Some(c2)) =>
      (match cfg.nameQuery
       case None => Some(DocumentInfo(c1, c2, []))
       case Some(q) =>
         match xp.stringAt(q)
         case None => None
         case Some(v) => Some(DocumentInfo(c1, c2, Trim(v))))
    case _ => None
  }

  /** The cleaned answers of a list of per-node queries, one per query, in query order;
      nothing when any query fails. */
  function QueryFields(xp: XPathView, queries: seq<string>, node: NodeRef): (r: Option<seq<string>>)
    ensures r.Some? <==> forall i :: 0 <= i < |queries| ==> xp.stringIn(queries[i], node).Some?
    ensures r.Some? ==> |r.value| == |queries|
    ensures r.Some? ==> forall i :: 0 <= i < |queries| ==>
              r.value[i] == CleanField(xp.stringIn(queries[i], node).value)
  {
    if forall i :: 0 <= i < |queries| ==> xp.stringIn(queries[i], node).Some? then
      Some(seq(|queries|, i requires 0 <= i < |queries| && xp.stringIn(queries[i], node).Some? =>
        CleanField(xp.stringIn(queries[i], node).value)))
    else None
  }

  /** The include map: the same names, each mapped to its query's cleaned answer; nothing
      when any query fails. */
  function QueryIncludes(xp: XPathView, queries: map<string, string>, node: NodeRef): (r: Option<map<string, string>>)
    ensures r.Some? <==> forall name :: name in queries ==> xp.stringIn(queries[name], node).Some?
    ensures r.Some? ==> r.value.Keys == queries.Keys
    ensures r.Some? ==> forall name :: name in queries ==>
              r.value[name] == CleanField(xp.stringIn(queries[name], node).value)
  {
    if forall name :: name in queries ==> xp.stringIn(queries[name], node).Some? then
      Some(map name | name in queries :: CleanField(xp.stringIn(queries[name], node).value))
    else None
  }

  /** `doubleCheckSortFields`: one notice, naming the card, per empty field. */
  function EmptyPhraseNotices(fields: seq<string>, cardName: string): (notices: seq<string>)
    ensures |notices| <= |fields|
    ensures notices == [] <==> forall i :: 0 <= i < |fields| ==> fields[i] != []
    ensures forall i :: 0 <= i < |notices| ==> notices[i] == cardName + EmptyPhraseNotice
  {
    if fields == [] then []
    else (if fields[0] == [] then [cardName + EmptyPhraseNotice] else []) + EmptyPhraseNotices(fields[1..], cardName)
  }

  /** A sound path: the strategy's path for the trimmed answer, when the query is set. */
  function QuerySound(xp: XPathView, st: Strategy, query: Option<string>, node: NodeRef): (r: Option<Option<string>>)
    ensures query.None? ==> r == Some(None)
    ensures query.Some? ==> (r.None? <==> xp.stringIn(query.value, node).None?)
    ensures query.Some? && r.Some? ==> r.value == Some(SoundPath(st, Trim(xp.stringIn(query.value, node).value)))
  {
    match query
    case None => Some(None)
    case Some(q) =>
      match xp.stringIn(q, node)
      case None => None
      case Some(v) => Some(Some(SoundPath(st, Trim(v))))
  }

  /** The per-node metadata of an entry: unit label, part of speech and the two sound paths. */
  datatype NodeMetadata = NodeMetadata(
    referencedBy: Option<string>,
    partOfSpeech: Option<string>,
    sideOneSoundFile: Option<string>,
    sideTwoSoundFile: Option<string>)

  /** The metadata: all null without a name query; otherwise the strategy's unit label and
      part of speech, and a sound path for each configured sound query. */
  function QueryMetadata(xp: XPathView, cfg: ReaderConfig, st: Strategy, node: NodeRef): (r: Option<NodeMetadata>)
    ensures cfg.nameQuery.None? ==> r == Some(NodeMetadata(None, None, None, None))
    ensures r.Some? ==> (r.value.referencedBy.Some? <==> cfg.nameQuery.Some?)
    ensures r.Some? ==> (r.value.partOfSpeech.Some? <==> cfg.nameQuery.Some?)
    ensures r.Some? ==> (r.value.sideOneSoundFile.Some? <==> cfg.nameQuery.Some? && cfg.sideOneSoundQuery.Some?)
    ensures r.Some? ==> (r.value.sideTwoSoundFile.Some? <==> cfg.nameQuery.Some? && cfg.sideTwoSoundQuery.Some?)
  {
    if cfg.nameQuery.None? then Some(NodeMetadata(None, None, None, None))
    else
      match (PartOfSpeech(st, xp), QuerySound(xp, st, cfg.sideOneSoundQuery, node), QuerySound(xp, st, cfg.sideTwoSoundQuery, node))
      case (Ok(pos), Some(one), Some(two)) => Some(NodeMetadata(Some(UnitLabel(st)), Some(pos), one, two))
      case _ => None
  }

  /** Under a name query the metadata is there exactly when the part of speech and both
      sound queries succeed, and it holds the strategy's answers. */
  lemma QueryMetadataContents(xp: XPathView, cfg: ReaderConfig, st: Strategy, node: NodeRef)
    requires cfg.nameQuery.Some?
    ensures QueryMetadata(xp, cfg, st, node).Some? <==>
              PartOfSpeech(st, xp).Ok?
              && QuerySound(xp, st, cfg.sideOneSoundQuery, node).Some?
              && QuerySound(xp, st, cfg.sideTwoSoundQuery, node).Some?
    ensures QueryMetadata(xp, cfg, st, node).Some? ==>
              && QueryMetadata(xp, cfg, st, node).value.referencedBy == Some(UnitLabel(st))
              && QueryMetadata(xp, cfg, st, node).value.partOfSpeech == Some(PartOfSpeech(st, xp).value)
              && QueryMetadata(xp, cfg, st, node).value.sideOneSoundFile == QuerySound(xp, st, cfg.sideOneSoundQuery, node).value
              && QueryMetadata(xp, cfg, st, node).value.sideTwoSoundFile == QuerySound(xp, st, cfg.sideTwoSoundQuery, node).value
  {
  }

  /** The strategy object built for every node. */
  function NodeStrategy(cfg: ReaderConfig, doc: DocumentInfo, file: InputFile, node: NodeRef): (st: Strategy) {
    ChooseStrategy(cfg.applyInternalRules, cfg.applyMarsocRules, doc.listName, file.path,
                   PlatformSeparator(file.separator), cfg.partOfSpeechQuery, node)
  }

  /** The notices for one node: only under a name query, naming the card by its trimmed name. */
  function NodeNotices(xp: XPathView, cfg: ReaderConfig, node: NodeRef, l1: seq<string>, l2: seq<string>): (r: Option<seq<string>>)
    ensures cfg.nameQuery.None? ==> r == Some([])
    ensures cfg.nameQuery.Some? ==> (r.Some? <==> xp.stringIn(cfg.nameQuery.value, node).Some?)
    ensures r.Some? ==> (r.value == [] <==> cfg.nameQuery.None?
                                            || ((forall i :: 0 <= i < |l1| ==> l1[i] != [])
                                                && (forall i :: 0 <= i < |l2| ==> l2[i] != [])))
  {
    match cfg.nameQuery
    case None => Some([])
    case Some(q) =>
      match xp.stringIn(q, node)
      case None => None
      case Some(v) =>
        var card := Trim(v);
        Some(EmptyPhraseNotices(l1, card) + EmptyPhraseNotices(l2, card))
  }

  /** The body of the node loop of `parseSortObjects`: the entry of one node, and the notices
      logged for it. The entry carries the document's language codes, one cleaned answer per
      configured sort query in query order, the configured include names, metadata exactly
      under a name query, and it starts out as a word without user data. */
  function ReadNode(xp: XPathView, cfg: ReaderConfig, doc: DocumentInfo, st: Strategy, node: NodeRef)
    : (r: Option<(SortObject, seq<string>)>)
    ensures r.Some? ==> r.value.0.languageCodeL1 == doc.codeL1 && r.value.0.languageCodeL2 == doc.codeL2
    ensures r.Some? ==> QueryFields(xp, cfg.sortFieldsL1Queries, node) == Some(r.value.0.sortFieldsL1)
    ensures r.Some? ==> QueryFields(xp, cfg.sortFieldsL2Queries, node) == Some(r.value.0.sortFieldsL2)
    ensures r.Some? ==> QueryIncludes(xp, cfg.includeQueries, node) == Some(r.value.0.fieldsToInclude)
    ensures r.Some? ==> NodeNotices(xp, cfg, node, r.value.0.sortFieldsL1, r.value.0.sortFieldsL2) == Some(r.value.1)
    ensures r.Some? ==> QueryMetadata(xp, cfg, st, node)
                          == Some(NodeMetadata(r.value.0.referencedBy, r.value.0.partOfSpeech,
                                               r.value.0.sideOneSoundFile, r.value.0.sideTwoSoundFile))
    ensures r.Some? ==> !r.value.0.isPhrase && r.value.0.userData == map[]
    ensures r.Some? <==> QueryMetadata(xp, cfg, st, node).Some?
                         && QueryFields(xp, cfg.sortFieldsL1Queries, node).Some?
                         && QueryFields(xp, cfg.sortFieldsL2Queries, node).Some?
                         && QueryIncludes(xp, cfg.includeQueries, node).Some?
                         && (cfg.nameQuery.Some? ==> xp.stringIn(cfg.nameQuery.value, node).Some?)
  {
    var m :- QueryMetadata(xp, cfg, st, node);
    var l1 :- QueryFields(xp, cfg.sortFieldsL1Queries, node);
    var l2 :- QueryFields(xp, cfg.sortFieldsL2Queries, node);
    var notices :- NodeNotices(xp, cfg, node, l1, l2);
    var includes :- QueryIncludes(xp, cfg.includeQueries, node);
    var o := SortObject(doc.codeL1, doc.codeL2, m.sideOneSoundFile, m.sideTwoSoundFile, m.referencedBy,
                        m.partOfSpeech, l1, l2, false, includes, map[]);
    Some((o, notices))
  }

  /** The unit label comes from the strategy the configuration selects. */
  lemma ReadNodeUnitLabel(xp: XPathView, cfg: ReaderConfig, doc: DocumentInfo, file: InputFile, node: NodeRef)
    requires cfg.nameQuery.Some?
    requires ReadNode(xp, cfg, doc, NodeStrategy(cfg, doc, file, node), node).Some?
    ensures var shown := ReadNode(xp, cfg, doc, NodeStrategy(cfg, doc, file, node), node).value.0.referencedBy;
      && (cfg.applyInternalRules ==> shown == Some(doc.listName))
      && (!cfg.applyInternalRules && !cfg.applyMarsocRules ==>
            shown == Some(UnitPrefix + UnitNumber(UnitRoot(file.path, PlatformSeparator(file.separator)))))
      && (!cfg.applyInternalRules && cfg.applyMarsocRules ==> shown == Some(MarsocUnitLabel(B4XName(file.path))))
  {
    QueryMetadataContents(xp, cfg, NodeStrategy(cfg, doc, file, node), node);
  }

  /** The node loop: entries in node order, notices in the order they were logged; nothing
      when any node fails. */
  function ReadNodes(xp: XPathView, cfg: ReaderConfig, doc: DocumentInfo, file: InputFile, nodes: seq<NodeRef>)
    : (r: Option<ReadResult>)
    ensures r.Some? <==> forall i :: 0 <= i < |nodes| ==> ReadNode(xp, cfg, doc, NodeStrategy(cfg, doc, file, nodes[i]), nodes[i]).Some?
    ensures r.Some? ==> |r.value.entries| == |nodes|
    ensures r.Some? ==> forall i :: 0 <= i < |nodes| ==>
              r.value.entries[i] == ReadNode(xp, cfg, doc, NodeStrategy(cfg, doc, file, nodes[i]), nodes[i]).value.0
  {
    var outcomes := seq(|nodes|, i requires 0 <= i < |nodes| => ReadNode(xp, cfg, doc, NodeStrategy(cfg, doc, file, nodes[i]), nodes[i]));
    assert forall i :: 0 <= i < |nodes| ==> outcomes[i] == ReadNode(xp, cfg, doc, NodeStrategy(cfg, doc, file, nodes[i]), nodes[i]);
    CollectOutcomes(outcomes)
  }

  /** The per-node outcomes gathered in node order; nothing when any is missing. */
  function CollectOutcomes(outcomes: seq<Option<(SortObject, seq<string>)>>): (r: Option<ReadResult>)
    ensures r.Some? <==> forall i :: 0 <= i < |outcomes| ==> outcomes[i].Some?
    ensures r.Some? ==> |r.value.entries| == |outcomes|
    ensures r.Some? ==> forall i :: 0 <= i < |outcomes| ==> r.value.entries[i] == outcomes[i].value.0
  {
    if outcomes == [] then Some(ReadResult([], []))
    else
      match (outcomes[0], CollectOutcomes(outcomes[1..]))
      case (Some((o, notices)), Some(rest)) => Some(ReadResult([o] + rest.entries, notices + rest.notices))
      case _ => None
  }

  /** `readSortObjects` once the file has parsed and a collection query is configured. */
  function ReadCollection(env: Env, cfg: ReaderConfig, xp: XPathView, collection: string, file: InputFile)
    : (r: Result<ReadResult>)
    ensures r.Err? ==> r == Err(ReadFailed(file.absolutePath))
    ensures r.Ok? <==> (xp.nodesAt(collection).Some? && QueryDocument(env, xp, cfg).Some?
                        && ReadNodes(xp, cfg, QueryDocument(env, xp, cfg).value, file, xp.nodesAt(collection).value).Some?)
    ensures r.Ok? ==> Some(r.value) == ReadNodes(xp, cfg, QueryDocument(env, xp, cfg).value, file, xp.nodesAt(collection).value)
  {
    match (QueryDocument(env, xp, cfg), xp.nodesAt(collection))
    case (Some(doc), Some(nodes)) =>
      (match ReadNodes(xp, cfg, doc, file, nodes)
       case Some(res) => Ok(res)
       case None => Err(ReadFailed(file.absolutePath)))
    case _ => Err(ReadFailed(file.absolutePath))
  }

  /** `readSortObjects`: `None` for the document is a file that does not parse. Every failure
      is reported as the one read failure naming the file. */
  function ReadSortObjects(env: Env, cfg: ReaderConfig, document: Option<XPathView>, file: InputFile): (r: Result<ReadResult>)
    ensures r.Err? ==> r == Err(ReadFailed(file.absolutePath))
    ensures document.None? || cfg.collectionQuery.None? ==> r.Err?
    ensures document.Some? && cfg.collectionQuery.Some? ==> r == ReadCollection(env, cfg, document.value, cfg.collectionQuery.value, file)
  {
    match (document, cfg.collectionQuery)
    case (Some(xp), Some(q)) => ReadCollection(env, cfg, xp, q, file)
    case _ => Err(ReadFailed(file.absolutePath))
  }

  /** A successful read has one entry per collected node, each the entry read from that node
      with the strategy the configuration selects. */
  lemma ReadSortObjectsEntries(env: Env, cfg: ReaderConfig, xp: XPathView, file: InputFile)
    requires ReadSortObjects(env, cfg, Some(xp), file).Ok?
    ensures cfg.collectionQuery.Some? && xp.nodesAt(cfg.collectionQuery.value).Some? && QueryDocument(env, xp, cfg).Some?
    ensures var nodes := xp.nodesAt(cfg.collectionQuery.value).value;
            var doc := QueryDocument(env, xp, cfg).value;
            var entries := ReadSortObjects(env, cfg, Some(xp), file).value.entries;
            |entries| == |nodes|
            && forall i :: 0 <= i < |nodes| ==>
                 entries[i] == ReadNode(xp, cfg, doc, NodeStrategy(cfg, doc, file, nodes[i]), nodes[i]).value.0
  {
  }

  /** A single failing sort-field query anywhere fails the whole read of the file. */
  lemma OneFailingQueryFailsTheRead(env: Env, cfg: ReaderConfig, xp: XPathView, file: InputFile, k: nat, i: nat)
    requires cfg.collectionQuery.Some? && xp.nodesAt(cfg.collectionQuery.value).Some?
    requires k < |xp.nodesAt(cfg.collectionQuery.value).value| && i < |cfg.sortFieldsL1Queries|
    requires xp.stringIn(cfg.sortFieldsL1Queries[i], xp.nodesAt(cfg.collectionQuery.value).value[k]).None?
    ensures ReadSortObjects(env, cfg, Some(xp), file) == Err(ReadFailed(file.absolutePath))
  {
    if QueryDocument(env, xp, cfg).Some? {
      var nodes := xp.nodesAt(cfg.collectionQuery.value).value;
      var doc := QueryDocument(env, xp, cfg).value;
      assert QueryFields(xp, cfg.sortFieldsL1Queries, nodes[k]).None?;
      assert ReadNode(xp, cfg, doc, NodeStrategy(cfg, doc, file, nodes[k]), nodes[k]).None?;
    }
  }
}
