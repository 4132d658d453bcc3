/**
 * The regular-expression engine, left abstract. A matcher stands for
 * `re.finditer(pattern, text, re.IGNORECASE)`: for a pattern (given by its
 * source text) and a text it yields the matches in order. `re.search` with the
 * same flags is its first match.
 */
module Matching {

  import opened Wrappers

  /**
   * One match object: `full` is group 0, `groups` are groups 1..n as
   * `match.groups()` returns them, `None` for a group that took no part.
   */
  datatype Match = Match(full: string, groups: seq<Option<string>>)

  type Matcher = (string, string) -> seq<Match>

  /** `re.search(pattern, text, re.IGNORECASE)`: the first match, if any. */
  function Search(finditer: Matcher, pattern: string, text: string): Option<Match>
  {
    var matches := finditer(pattern, text);
    if matches == [] then None else Some(matches[0])
  }

  /**
   * What Python's `re` guarantees of a match of a pattern with `count` groups
   * whose first group is not optional: one entry per group, the first present.
   */
  predicate HasGroups(m: Match, count: nat) {
    |m.groups| == count && (count > 0 ==> m.groups[0].Some?)
  }
}
