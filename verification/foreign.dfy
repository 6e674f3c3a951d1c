/** The library behaviour the glossary code calls but does not define, as plain function
    values handed to the model: `java.util.regex` matching and replacement, locale-sensitive
    casing, NFD normalisation, `java.text.Collator` and XPath evaluation. Nothing is assumed
    about them except where a lemma says so in its `requires`. */
module Foreign {
  import opened Results

  /** How `CollatorData` builds its collator: from a rule string for a language without a
      Java locale, from the locale otherwise. */
  datatype CollatorSpec = RuleBased(rules: string) | LocaleBased(locale: string)

  /** `Collator.compare` answers `Collator.LESS`, `EQUAL` or `GREATER`. */
  type Sign = x: int | -1 <= x <= 1

  datatype Env = Env(
    fullMatch: (string, string) -> bool,        // Pattern.matches(regex, input)
    commonGroup: (string, string) -> Option<string>, // group(1) after a full match; None: the group took no part
    groupCount: string -> nat,                  // Matcher.groupCount() of a pattern
    upperDefault: string -> string,             // String.toUpperCase()
    upperIn: (string, string) -> string,        // (text, code): text.toUpperCase(new Locale(code))
    lowerDefault: string -> string,             // String.toLowerCase()
    lowerIn: (string, string) -> string,        // (text, code): text.toLowerCase(new Locale(code))
    removeRegex: (string, string) -> string,    // (text, regex): text.replaceAll(regex, "")
    nfd: string -> string,                      // Normalizer.normalize(text, NFD)
    rulesParse: string -> bool,                 // new RuleBasedCollator(rules) does not throw
    collate: (CollatorSpec, string, string) -> Sign)

  /** The collator behaves as a total preorder: what the sorting lemmas take for granted. */
  ghost predicate CollatorIsTotalPreorder(env: Env, spec: CollatorSpec) {
    && (forall a, b :: env.collate(spec, a, b) == -env.collate(spec, b, a))
    && (forall a, b, c {:trigger env.collate(spec, a, b), env.collate(spec, b, c)} ::
          env.collate(spec, a, b) <= 0 && env.collate(spec, b, c) <= 0 ==> env.collate(spec, a, c) <= 0)
  }

  /** An XML node returned by a node-set query, identified by its position in the document. */
  type NodeRef = nat

  /** The answers of the XPath engine for one parsed document; `None` is an
      `XPathExpressionException`. */
  datatype XPathView = XPathView(
    stringAt: string -> Option<string>,          // xPath.evaluate(expr, document)
    nodesAt: string -> Option<seq<NodeRef>>,     // xPath.evaluate(expr, document, NODESET)
    stringIn: (string, NodeRef) -> Option<string>) // xPath.evaluate(expr, node)
}
