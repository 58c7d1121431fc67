/**
 * Cutting one input line into a station name and a value token
 * (`split_once` in src/main.rs).
 *
 * The source searches the line's bytes for the delimiter byte. The
 * delimiter used is `;`, an ASCII byte, which in UTF-8 text never occurs
 * inside the encoding of another character, so searching the characters of
 * the line finds the same cut.
 */
module Records {

  datatype Option<T> = None | Some(value: T)

  /** The index of the first occurrence of `d` in `s`, the `position` search of the source. */
  function Position(s: string, d: char): (p: Option<nat>)
    ensures p.Some? ==> p.value < |s| && s[p.value] == d && d !in s[..p.value]
    ensures p.None? <==> d !in s
  {
    if s == [] then None
    else if s[0] == d then Some(0)
    else match Position(s[1..], d)
      case None => None
      case Some(q) =>
        assert s[..q + 1] == [s[0]] + s[1..][..q];
        Some(q + 1)
  }

  /**
   * Cut at the first delimiter: the part before it and the part after it.
   * A line without the delimiter is all key, with an empty token.
   */
  function SplitOnce(input: string, delimiter: char): (r: (string, string))
    ensures delimiter in input ==> delimiter !in r.0 && input == r.0 + [delimiter] + r.1
    ensures delimiter !in input ==> r == (input, "")
  {
    match Position(input, delimiter)
    case Some(pos) =>
      assert input == input[..pos] + [delimiter] + input[pos + 1..];
      (input[..pos], input[pos + 1..])
    case None => (input, "")
  }

  /** The search stops at the first delimiter. */
  lemma {:induction false} PositionOfFirst(s: string, d: char, p: nat)
    requires p < |s| && s[p] == d && d !in s[..p]
    ensures Position(s, d) == Some(p)
  {
    if p > 0 {
      assert s[0] in s[..p];
      assert s[1..][..p - 1] == s[1..p];
      assert forall c :: c in s[1..p] ==> c in s[..p];
      PositionOfFirst(s[1..], d, p - 1);
    }
  }

  /** Joining a delimiter-free key to any token and splitting again gives both back. */
  lemma SplitOnceJoin(key: string, token: string, delimiter: char)
    requires delimiter !in key
    ensures SplitOnce(key + [delimiter] + token, delimiter) == (key, token)
  {
    var line := key + [delimiter] + token;
    assert line[..|key|] == key;
    PositionOfFirst(line, delimiter, |key|);
    assert line[|key| + 1..] == token;
  }
}
