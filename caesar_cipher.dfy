/** The Caesar cipher (`caesar_encrypt_char`, `caesar_encrypt`) over ASCII letters. */
module CaesarCipher {

  predicate IsLower(c: char) { 'a' <= c <= 'z' }

  predicate IsUpper(c: char) { 'A' <= c <= 'Z' }

  predicate IsLetter(c: char) { IsLower(c) || IsUpper(c) }

  /** The first letter of the case range of `c`. */
  function Start(c: char): char {
    if IsLower(c) then 'a' else 'A'
  }

  /**
   * `caesar_encrypt_char`: a letter moves `n` places forward within its case
   * range, wrapping around; anything else is unchanged. Python's `%` with a
   * positive divisor is never negative, as Dafny's is.
   */
  function EncryptChar(c: char, n: int): (r: char)
    ensures !IsLetter(c) ==> r == c
    ensures IsLower(c) <==> IsLower(r)
    ensures IsUpper(c) <==> IsUpper(r)
    ensures IsLetter(c) ==> (r as int - Start(c) as int) == (c as int - Start(c) as int + n) % 26
  {
    if !IsLetter(c) then c
    else
      var start := Start(c) as int;
      (start + (c as int - start + n) % 26) as char
  }

  /** `caesar_encrypt`: the character-wise map of `EncryptChar`. */
  function Encrypt(message: string, n: int): (r: string)
    ensures |r| == |message|
    ensures forall i :: 0 <= i < |message| ==> r[i] == EncryptChar(message[i], n)
  {
    seq(|message|, i requires 0 <= i < |message| => EncryptChar(message[i], n))
  }

  /** Shifting back by `n` undoes shifting by `n`, one character at a time. */
  lemma CharRoundTrip(c: char, n: int)
    ensures EncryptChar(EncryptChar(c, n), -n) == c
  {
    if IsLetter(c) {
      var x := c as int - Start(c) as int;
      var y := (x + n) % 26;
      assert 0 <= x < 26;
      assert (y - n) % 26 == x by {
        var q := (x + n) / 26;
        assert x + n == 26 * q + y;
        assert y - n == x - 26 * q;
      }
    }
  }

  /** Decrypting with `-n` gives the message back. */
  lemma RoundTrip(message: string, n: int)
    ensures Encrypt(Encrypt(message, n), -n) == message
  {
    forall i | 0 <= i < |message| ensures Encrypt(Encrypt(message, n), -n)[i] == message[i] {
      CharRoundTrip(message[i], n);
    }
  }

  /** Shifts that differ by 26 agree. */
  lemma Periodic(message: string, n: int)
    ensures Encrypt(message, n + 26) == Encrypt(message, n)
  {
    forall i | 0 <= i < |message| ensures EncryptChar(message[i], n + 26) == EncryptChar(message[i], n) {
      var c := message[i];
      if IsLetter(c) {
        var x := c as int - Start(c) as int;
        assert (x + n + 26) % 26 == (x + n) % 26;
      }
    }
  }
}
