/** The secret backend the charm calls into, modelled abstractly: the content of every
    live secret, keyed by its id, and the serial number the next `add_secret` will use.
    Ids are "secret:" followed by the decimal serial, so a new id is never one already
    in the store. */
module SecretStore {

  type SecretId = string

  /** The payload of one secret: key to value. */
  type Content = map<string, string>

  datatype Store = Store(secrets: map<SecretId, Content>, nextSerial: nat)

  const IdPrefix: string := "secret:"

  function DigitChar(d: nat): char
    requires d < 10
  {
    ('0' as int + d) as char
  }

  function DigitValue(c: char): int {
    c as int - '0' as int
  }

  /** The decimal digits of `n`, most significant first. */
  function Decimal(n: nat): (s: string)
    ensures |s| > 0
  {
    if n < 10 then [DigitChar(n)] else Decimal(n / 10) + [DigitChar(n % 10)]
  }

  /** Reads a string of decimal digits back as a number. */
  function DecimalValue(s: string): int {
    if s == [] then 0 else DecimalValue(s[..|s| - 1]) * 10 + DigitValue(s[|s| - 1])
  }

  lemma {:induction false} DecimalRoundTrip(n: nat)
    ensures DecimalValue(Decimal(n)) == n
  {
    if n >= 10 {
      DecimalRoundTrip(n / 10);
      var s := Decimal(n / 10) + [DigitChar(n % 10)];
      assert s[..|s| - 1] == Decimal(n / 10);
    }
  }

  /** The id the store hands out for serial number `n`. */
  function IdOf(n: nat): SecretId {
    IdPrefix + Decimal(n)
  }

  /** The serial number an id was issued under, or -1 for an id of another shape. */
  function SerialOf(id: SecretId): int {
    if |id| >= |IdPrefix| && id[..|IdPrefix|] == IdPrefix then DecimalValue(id[|IdPrefix|..]) else -1
  }

  lemma SerialOfIdOf(n: nat)
    ensures SerialOf(IdOf(n)) == n
  {
    var id := IdOf(n);
    assert id[..|IdPrefix|] == IdPrefix;
    assert id[|IdPrefix|..] == Decimal(n);
    DecimalRoundTrip(n);
  }

  /** Every live secret was issued before `nextSerial`. */
  ghost predicate AllocatorValid(st: Store) {
    forall id | id in st.secrets :: SerialOf(id) < st.nextSerial
  }

  /** `app.add_secret(content)`: a new secret under an id not yet in the store. */
  function AddSecret(st: Store, content: Content): (r: (Store, SecretId))
    requires AllocatorValid(st)
    ensures r.1 !in st.secrets
    ensures r.0.secrets == st.secrets[r.1 := content]
    ensures AllocatorValid(r.0)
  {
    var id := IdOf(st.nextSerial);
    SerialOfIdOf(st.nextSerial);
    (Store(st.secrets[id := content], st.nextSerial + 1), id)
  }

  /** `secret.set_content(content)`: a new revision of an existing secret. */
  function SetContent(st: Store, id: SecretId, content: Content): (r: Store)
    requires id in st.secrets
    ensures AllocatorValid(st) ==> AllocatorValid(r)
    ensures r.secrets.Keys == st.secrets.Keys && r.secrets[id] == content
    ensures forall other | other in st.secrets && other != id :: r.secrets[other] == st.secrets[other]
  {
    st.(secrets := st.secrets[id := content])
  }

  /** `secret.remove_all_revisions()`: the secret is gone. */
  function RemoveAllRevisions(st: Store, id: SecretId): (r: Store)
    ensures AllocatorValid(st) ==> AllocatorValid(r)
    ensures r.secrets.Keys == st.secrets.Keys - {id}
    ensures forall other | other in r.secrets :: r.secrets[other] == st.secrets[other]
  {
    st.(secrets := st.secrets - {id})
  }
}
