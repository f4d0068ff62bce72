/** The ASCII strings of the protocol, as bytes. */
module Labels {
  import opened Bytes

  /** The bytes are the ASCII codes of the text. */
  predicate Spelled(b: bytes, text: string) {
    |b| == |text| && forall i :: 0 <= i < |b| ==> b[i] == text[i] as int
  }

  /** "xchacha20" */
  const XCHACHA20: bytes := [120, 99, 104, 97, 99, 104, 97, 50, 48]

  /** "xchacha20-poly1305" */
  const XCHACHA20_POLY1305: bytes := [120, 99, 104, 97, 99, 104, 97, 50, 48, 45, 112, 111, 108, 121, 49, 51, 48, 53]

  /** "aes-gcm" */
  const AES_GCM: bytes := [97, 101, 115, 45, 103, 99, 109]

  /** "gcm" */
  const GCM: bytes := [103, 99, 109]

  /** "aes-cbc" */
  const AES_CBC: bytes := [97, 101, 115, 45, 99, 98, 99]

  /** "cbc" */
  const CBC: bytes := [99, 98, 99]

  /** "LOKI" */
  const LOKI: bytes := [76, 79, 75, 73]

  /** "destination" */
  const DESTINATION: bytes := [100, 101, 115, 116, 105, 110, 97, 116, 105, 111, 110]

  /** "ephemeral_key" */
  const EPHEMERAL_KEY: bytes := [101, 112, 104, 101, 109, 101, 114, 97, 108, 95, 107, 101, 121]

  /** "enc_type" */
  const ENC_TYPE: bytes := [101, 110, 99, 95, 116, 121, 112, 101]

  lemma {:induction false} TypesSpelled()
    ensures Spelled(XCHACHA20, "xchacha20") && Spelled(XCHACHA20_POLY1305, "xchacha20-poly1305")
    ensures Spelled(AES_GCM, "aes-gcm") && Spelled(GCM, "gcm")
    ensures Spelled(AES_CBC, "aes-cbc") && Spelled(CBC, "cbc")
  {
  }

  lemma {:induction false} LabelsSpelled()
    ensures Spelled(LOKI, "LOKI") && Spelled(DESTINATION, "destination")
    ensures Spelled(EPHEMERAL_KEY, "ephemeral_key") && Spelled(ENC_TYPE, "enc_type")
  {
  }

  /** A text has one spelling. */
  lemma {:induction false} SpelledOnce(a: bytes, b: bytes, text: string)
    requires Spelled(a, text) && Spelled(b, text)
    ensures a == b
  {
  }
}
