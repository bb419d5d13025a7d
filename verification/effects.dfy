/**
 * What the extension's message handlers do to the editor, as data: the
 * notifications they show and the lines they type into a named terminal.
 */
module Effects {
  datatype Effect =
    | ShowError(text: string)
    | ShowInfo(text: string)
    | SendText(terminal: string, text: string)
}
