/** The redirect rule record, as it is read from the rule source. */
module Models {
  import opened Wrappers

  /**
   * One redirect rule (`RedirectData`). Either URL may be null.
   * `redirectType` is an HTTP status code, 301 meaning a permanent redirect;
   * `useRelative` selects prefix matching with substitution over exact matching.
   */
  datatype Rule = Rule(
    redirectUrl: Option<string>,
    targetUrl: Option<string>,
    redirectType: int,
    useRelative: bool)
}
