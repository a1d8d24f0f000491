/** The JSON document the unifier edits, reduced to what it reads and writes:
    a list of entries, each with comment groups of block comments carrying
    `svgGroupId`. */
module Document {
  import opened Wrappers

  /** A block comment; an absent or null `svgGroupId` is `None`. */
  datatype Block = Block(svgGroupId: Option<string>)

  /** An entry of the list: a JSON object, with its `id` (absent or null is
      `None`) and its `commentary.comments` groups, each group reduced to its
      `blockComments` list (a missing list is empty); or any other JSON value. */
  datatype Entry = Entry(id: Option<string>, comments: seq<seq<Block>>) | NotAnObject
}
