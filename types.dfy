/**
 * The values the loader builds and the interpreter reads: logic expressions,
 * choices, pages and the failures of loading and validation.
 */
module Types {
  import opened JsBuiltins

  /** A parse or evaluation outcome that may carry a failure. */
  datatype Result<+T, +E> = Ok(value: T) | Err(error: E)

  datatype Option<+T> = None | Some(value: T)

  /** Where a logic expression is parsed: a page's logic block or a choice guard. */
  datatype LogicFilter = State | Expression

  /** `lhs operator rhs`; `op` is kept as the string the markup gave. */
  datatype Logic = Logic(op: string, lhs: string, rhs: Number)

  /** A choice: optional label, lower-cased target (a page name or `end`), optional guard. */
  datatype Choice = Choice(text: Option<string>, link: string, condition: Option<Logic>)

  /** Body fragments, choices, and the logic block when the page has one. */
  datatype Page = Page(texts: seq<string>, choices: seq<Choice>, logics: Option<seq<Logic>>)

  /** The reasons `loadMarkup` throws. */
  datatype LoadError =
    | EmptyMarkup
    | DuplicatePage(name: string)
    | InvalidHeader
    | ReservedPageName
    | InvalidLogic
    | InvalidLogicSyntax
    | ConditionExpected
    | NonConditionExpected
    | InvalidOperation
    | InvalidTexts
    | InvalidChoiceSyntax
    | NoChoices
    | GuardedAutoChoice

  /** The reasons `validate` throws. */
  datatype ValidationError =
    | NoTexts(page: string)
    | NoPageChoices(page: string)
    | UnknownLink(page: string, link: string)
    | Unreferenced(page: string)

  /** The name a choice uses to end the quest; never a page. */
  const EndPage: string := "end"

  const MutatingOps: set<string> := {"=", "+="}
  const ConditionalOps: set<string> := {"==", "!=", "<", ">"}
}
