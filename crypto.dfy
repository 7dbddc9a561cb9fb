/**
 * Hashing and the number formatting that the proof-of-work guess is built
 * from (hash.go, and strconv.FormatUint as used by validProof).
 *
 * SHA-256 and JSON serialisation are library calls: they enter the model as
 * the fields of a `Codec`, about which nothing is assumed beyond their types.
 * The codec is generic in the block and transaction types because hash.go is
 * compiled into both builds of the program (the node and the older CLI),
 * each of which declares its own `Block` and `Transaction`.
 */
module Crypto {

  /** A SHA-256 digest in lower-case hex: always 64 characters. */
  type Digest = s: string | |s| == 64
    witness "0000000000000000000000000000000000000000000000000000000000000000"

  /** The proof-of-work nonce, a Go `uint64`. */
  const NonceLimit: int := 0x1_0000_0000_0000_0000
  type Nonce = n: nat | n < NonceLimit

  /** The external primitives hash.go and validProof rely on. */
  datatype Codec<!B, !T> = Codec(
    sha256Hex: string -> Digest,         // HashString256
    marshalBlock: B -> string,           // json.Marshal of a block
    marshalTxs: seq<T> -> string)        // json.Marshal of a transaction list

  /** Block.Hash: the digest of the block's JSON serialisation. */
  function BlockHash<B, T>(c: Codec<B, T>, b: B): Digest
  {
    c.sha256Hex(c.marshalBlock(b))
  }

  /** The fixed difficulty: the hex digest starts with "00". */
  predicate HasDifficultyPrefix(d: Digest)
  {
    d[..2] == "00"
  }

  /** The string a proof-of-work guess is made of: transactions, last hash, nonce. */
  function Guess<B, T>(c: Codec<B, T>, txs: seq<T>, lastHash: string, proof: Nonce): string
  {
    c.marshalTxs(txs) + lastHash + Decimal(proof)
  }

  predicate IsDigit(ch: char)
  {
    '0' <= ch <= '9'
  }

  function DigitChar(d: nat): (ch: char)
    requires d < 10
    ensures IsDigit(ch) && ch as int - '0' as int == d
  {
    ('0' as int + d) as char
  }

  /** strconv.FormatUint(n, 10): shortest decimal representation of n. */
  function Decimal(n: nat): (s: string)
    ensures |s| > 0
    ensures forall i :: 0 <= i < |s| ==> IsDigit(s[i])
    ensures s[0] == '0' ==> n == 0 && s == "0"
    decreases n
  {
    if n < 10 then [DigitChar(n)] else Decimal(n / 10) + [DigitChar(n % 10)]
  }

  /** The value of a string of decimal digits (its inverse, strconv.ParseUint). */
  function ParseDecimal(s: string): nat
    requires forall i :: 0 <= i < |s| ==> IsDigit(s[i])
  {
    if s == [] then 0
    else
      assert IsDigit(s[|s| - 1]);
      ParseDecimal(s[..|s| - 1]) * 10 + (s[|s| - 1] as int - '0' as int)
  }

  lemma {:induction false} DecimalRoundTrip(n: nat)
    ensures ParseDecimal(Decimal(n)) == n
    decreases n
  {
    if n >= 10 {
      var s := Decimal(n);
      assert s[..|s| - 1] == Decimal(n / 10);
      DecimalRoundTrip(n / 10);
    }
  }

  /** Two different nonces are never written the same way. */
  lemma DecimalInjective(a: nat, b: nat)
    requires Decimal(a) == Decimal(b)
    ensures a == b
  {
    DecimalRoundTrip(a);
    DecimalRoundTrip(b);
  }

  /**
   * Every step of the nonce search hashes a different string: for the same
   * transactions and last hash, different nonces give different guesses.
   */
  lemma DistinctNoncesDistinctGuesses<B, T>(c: Codec<B, T>, txs: seq<T>, lastHash: string, p: Nonce, q: Nonce)
    requires p != q
    ensures Guess(c, txs, lastHash, p) != Guess(c, txs, lastHash, q)
  {
    var prefix := c.marshalTxs(txs) + lastHash;
    if Guess(c, txs, lastHash, p) == Guess(c, txs, lastHash, q) {
      assert Decimal(p) == Guess(c, txs, lastHash, p)[|prefix|..];
      assert Decimal(q) == Guess(c, txs, lastHash, q)[|prefix|..];
      DecimalInjective(p, q);
    }
  }
}
