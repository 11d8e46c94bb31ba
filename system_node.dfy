/** The `SystemNode` record: nine fields, their defaults, and field-wise equality. */
module Node {
  import opened Wrappers
  import opened Json

  /**
   * One node of the hierarchy. `ID` is absent until the store assigns one;
   * `Tags` and `Metadata` may be absent (None) or a dictionary. There is no
   * sibling-order field.
   */
  datatype SystemNode = SystemNode(
    ID: Option<int>,
    ParentID: Option<int>,
    Name: string,
    Description: Option<string>,
    Notes: Option<string>,
    Tags: Option<Dict>,
    Metadata: Option<Dict>,
    Status: Option<string>,
    Importance: int)

  /** The node built with no arguments: every optional field absent, except the two dictionaries, which are empty. */
  function DefaultNode(): (n: SystemNode)
    ensures n.ID == None && n.ParentID == None
    ensures n.Name == "" && n.Importance == 0
    ensures n.Description == None && n.Notes == None && n.Status == None
    ensures n.Tags == Some(map[]) && n.Metadata == Some(map[])
  {
    SystemNode(None, None, "", None, None, Some(map[]), Some(map[]), None, 0)
  }

  /** Two nodes are equal iff all nine fields are, as the generated dataclass equality says. */
  lemma NodeEqualityIsFieldwise(a: SystemNode, b: SystemNode)
    ensures a == b <==>
      && a.ID == b.ID && a.ParentID == b.ParentID && a.Name == b.Name
      && a.Description == b.Description && a.Notes == b.Notes
      && a.Tags == b.Tags && a.Metadata == b.Metadata
      && a.Status == b.Status && a.Importance == b.Importance
  {
  }
}
