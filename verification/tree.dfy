/**
  The parsed Markdown document as the renderer receives it: a closed set of
  node kinds, each with its attributes and its ordered children. Only the
  kinds the renderer registers a handler for appear, plus the document root.
*/
module Tree {

  datatype ListKind = Bullet | Ordered

  /** The three list-item classes; a task item records whether it is checked. */
  datatype ItemKind = BulletItem | OrderedItem | TaskItem(done: bool)

  datatype Node =
    | Document(children: seq<Node>)
      // inline
    | StrongEmphasis(children: seq<Node>)
    | Emphasis(children: seq<Node>)
    | Strikethrough(children: seq<Node>)
    | Code(text: string)
    | Link(url: string, children: seq<Node>)
    | AutoLink(text: string, children: seq<Node>)
    | MailLink(text: string, children: seq<Node>)
    | Image(url: string, alt: string, children: seq<Node>)
    | SoftLineBreak
    | HardLineBreak
    | Text(chars: string)
    | TextBase(children: seq<Node>)
    | HtmlEntity(chars: string)
    | HtmlInline(chars: string)
      // blocks
    | Heading(level: nat, children: seq<Node>)
    | Paragraph(children: seq<Node>)
    | BlockQuote(children: seq<Node>)
    | FencedCodeBlock(info: string, content: string)
    | IndentedCodeBlock(content: string)
    | ThematicBreak
    | HtmlBlock(chars: string)
      // lists
    | ListBlock(kind: ListKind, children: seq<Node>)
    | ListItem(item: ItemKind, children: seq<Node>)
      // tables
    | TableBlock(children: seq<Node>)
    | TableHead(children: seq<Node>)
    | TableBody(children: seq<Node>)
    | TableRow(children: seq<Node>)
    | TableCell(children: seq<Node>)
    | TableSeparator(children: seq<Node>)
}
