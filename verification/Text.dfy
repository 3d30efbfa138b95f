/** Names are compared without regard to the case of ASCII letters. */
module Text {
  function Lower(s: string): string {
    seq(|s|, i requires 0 <= i < |s| => if 'A' <= s[i] <= 'Z' then s[i] - 'A' + 'a' else s[i])
  }

  predicate Same(a: string, b: string) {
    Lower(a) == Lower(b)
  }
}
