/**
  The save parser the character service depends on. How it fetches and decodes a save
  file is not part of this model: its answer for the next request is a field set from
  outside, and it records each request in the shared call log.
*/
module SaveParsing {
  import opened Wrappers
  import opened Domain
  import opened Calls

  class SaveParser {
    /** What the parser answers when asked: the parsed character, or the error. */
    var answer: Result<Character, Error>
    const log: CallLog

    constructor (answer: Result<Character, Error>, log: CallLog)
      ensures this.answer == answer && this.log == log
    {
      this.answer := answer;
      this.log := log;
    }

    /** Parses the character `name`, recording the request. */
    method Parse(name: string) returns (r: Result<Character, Error>)
      modifies log
      ensures r == answer
      ensures log.calls == old(log.calls) + [ParseCall(name)]
    {
      log.calls := log.calls + [ParseCall(name)];
      r := answer;
    }
  }
}
