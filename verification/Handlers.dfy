/** What a Python event handler answers. */
module Handlers {
  datatype Verdict = False | Text(text: string) | Other
}
