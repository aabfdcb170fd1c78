/** The result of a successful rule match. */
module TranscriptionMatches {

  /** The text to emit, and how many characters of the input the match consumes. */
  datatype TranscriptionMatch = TranscriptionMatch(replacement: string, length: int)

  /** The Length setter: the replacement is left as it was. */
  function SetLength(m: TranscriptionMatch, length: int): (r: TranscriptionMatch)
    ensures r.length == length && r.replacement == m.replacement
  {
    m.(length := length)
  }

  /** The Replacement setter: the length is left as it was. */
  function SetReplacement(m: TranscriptionMatch, replacement: string): (r: TranscriptionMatch)
    ensures r.replacement == replacement && r.length == m.length
  {
    m.(replacement := replacement)
  }
}
