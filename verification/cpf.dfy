/** The CPF helpers `formatarCPF` and `validarCPF` (bot.js:291-305): strip
    everything but the digits, then accept eleven digits that are not all
    the same. The two check digits of a CPF are not verified by the bot. */
module Cpf {
  import opened Seqs

  const CpfLength: nat := 11

  /** The regular-expression class `\d` without the `u` flag. */
  predicate IsDigit(c: char) {
    '0' <= c <= '9'
  }

  predicate AllDigits(s: string) {
    forall i :: 0 <= i < |s| ==> IsDigit(s[i])
  }

  /** `formatarCPF`: the digits of `s`, in order. */
  function FormatCpf(s: string): (r: string)
    ensures |r| <= |s|
    ensures AllDigits(r)
  {
    Filter(s, IsDigit)
  }

  /** Formatting keeps exactly the positions of the input that hold a digit,
      each once and in order; so a character survives exactly when it is a
      digit of the input. */
  lemma FormatCpfKeepsDigits(s: string, c: char)
    ensures FormatCpf(s) == Select(s, Marks(s, IsDigit))
    ensures c in FormatCpf(s) <==> c in s && IsDigit(c)
    ensures IsSubsequence(FormatCpf(s), s)
  {
    FilterMembership(s, IsDigit, c);
    FilterIsSubsequence(s, IsDigit);
  }

  /** Formatting is the identity exactly on digit strings; in particular it
      is idempotent. */
  lemma FormatCpfFixed(s: string)
    ensures FormatCpf(s) == s <==> AllDigits(s)
    ensures FormatCpf(FormatCpf(s)) == FormatCpf(s)
  {
    if AllDigits(s) {
      FilterAllPass(s, IsDigit);
    }
    FilterIdempotent(s, IsDigit);
  }

  /** The regular expression `^(\d)\1+$`: a digit repeated at least twice
      and nothing else. */
  predicate RepeatedDigit(d: string) {
    |d| >= 2 && IsDigit(d[0]) && forall i :: 1 <= i < |d| ==> d[i] == d[0]
  }

  /** `validarCPF`: after formatting, exactly eleven digits, not all equal. */
  function IsValidCpf(s: string): (b: bool)
    ensures b <==> |FormatCpf(s)| == CpfLength &&
                   exists i :: 0 <= i < |FormatCpf(s)| && FormatCpf(s)[i] != FormatCpf(s)[0]
  {
    var d := FormatCpf(s);
    |d| == CpfLength && !RepeatedDigit(d)
  }

  /** Validation looks only at the digits: punctuation such as the dots and
      the dash of `123.456.789-09` makes no difference. */
  lemma ValidityIgnoresPunctuation(s: string, t: string)
    requires FormatCpf(s) == FormatCpf(t)
    ensures IsValidCpf(s) == IsValidCpf(t)
    ensures IsValidCpf(s) == IsValidCpf(FormatCpf(s))
  {
    FormatCpfFixed(s);
  }
}
