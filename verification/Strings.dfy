/** C strings, as the sequences of their characters without the terminator. */
module Strings {

  /** The characters strncmp looks at: the first `n`, or all of them and the terminator. */
  function CPrefix(s: string, n: nat): string {
    if |s| < n then s + ['\0'] else s[..n]
  }

  /** strncmp(s, t, n) == 0 */
  predicate StrNCmpEqual(s: string, t: string, n: nat) {
    CPrefix(s, n) == CPrefix(t, n)
  }

  /** strncmp(s, prefix, strlen(prefix)) == 0 */
  predicate StartsWith(s: string, prefix: string) {
    StrNCmpEqual(s, prefix, |prefix|)
  }

  /** On C strings that is the prefix relation. */
  lemma StartsWithIsPrefix(s: string, prefix: string)
    requires '\0' !in prefix
    ensures StartsWith(s, prefix) <==> prefix <= s
  {
    if |s| < |prefix| {
      var read := CPrefix(s, |prefix|);
      assert read[|s|] == '\0';
      assert CPrefix(prefix, |prefix|) == prefix;
    }
  }
}
