/** The room-name test of the directory: `validate(id) && version(id) === 4`
    from the `uuid` package. That package is not part of this model; what it
    is assumed to accept is written out here as a predicate on the text: the
    canonical 8-4-4-4-12 layout of hexadecimal digits, the version nibble
    (section 4.1.3 of RFC 4122) equal to 4 and the variant bits (section 4.1.1
    of RFC 4122) equal to binary 10, that is a digit among 8, 9, a, b. */
module Uuid {

  const UuidLength := 36

  /** socket.io names every connection with a 20-character base64url id. */
  const SocketIdLength := 20

  predicate IsHexDigit(c: char) {
    '0' <= c <= '9' || 'a' <= c <= 'f' || 'A' <= c <= 'F'
  }

  /** The positions of the four hyphens in the canonical text form. */
  predicate IsHyphenPosition(i: int) {
    i == 8 || i == 13 || i == 18 || i == 23
  }

  predicate IsVariantDigit(c: char) {
    c == '8' || c == '9' || c == 'a' || c == 'b' || c == 'A' || c == 'B'
  }

  /** What `validate(s) && version(s) === 4` accepts (assumed, see above). */
  predicate IsUuidV4(s: string) {
    && |s| == UuidLength
    && (forall i | 0 <= i < |s| :: if IsHyphenPosition(i) then s[i] == '-' else IsHexDigit(s[i]))
    && s[14] == '4'
    && IsVariantDigit(s[19])
  }

  /** The shape of a connection id that socket.io hands out. */
  predicate IsSocketId(s: string) {
    |s| == SocketIdLength
  }

  /** A version-4 id is accepted; the same id with version nibble 1, a
      socket.io connection id and a free-form name are not. */
  lemma Examples()
    ensures IsUuidV4("9b2f6c1e-3a4d-4e5f-8a7b-0c1d2e3f4a5b")
    ensures !IsUuidV4("9b2f6c1e-3a4d-1e5f-8a7b-0c1d2e3f4a5b")
    ensures !IsUuidV4("9b2f6c1e-3a4d-4e5f-ca7b-0c1d2e3f4a5b")
    ensures !IsUuidV4("Jx3kQ9vT2bW7nR5mL0aZ")
    ensures !IsUuidV4("not-a-uuid")
  {
  }
}
