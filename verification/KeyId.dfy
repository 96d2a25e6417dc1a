/** Certificate key ids: fmt.Sprintf("%s_%d", username, second). */
module KeyId {
  import opened Common
  import opened Strings

  function Digit(d: nat): char
    requires d < 10
  {
    '0' + d as char
  }

  predicate AllDigits(s: string) {
    forall i :: 0 <= i < |s| ==> '0' <= s[i] <= '9'
  }

  /** The value of a string of decimal digits. */
  function NatValue(s: string): nat
    requires AllDigits(s)
  {
    if s == [] then 0
    else 10 * NatValue(s[..|s| - 1]) + (s[|s| - 1] - '0') as nat
  }

  function DecimalNat(n: nat): (s: string)
    ensures s != [] && AllDigits(s)
    ensures NatValue(s) == n
  {
    if n < 10 then [Digit(n)]
    else
      var front := DecimalNat(n / 10);
      var s := front + [Digit(n % 10)];
      assert s[..|s| - 1] == front;
      s
  }

  /** %d. */
  function Decimal(n: int): string {
    if n < 0 then "-" + DecimalNat(-n) else DecimalNat(n)
  }

  function KeyId(user: string, second: int): string {
    user + "_" + Decimal(second)
  }

  function IntValue(s: string): Option<int> {
    if s != [] && AllDigits(s) then Some(NatValue(s))
    else if s != [] && s[0] == '-' && AllDigits(s[1..]) then Some(0 - NatValue(s[1..]))
    else None
  }

  /** Splits a key id at its last underscore and reads the number after it. */
  function ParseKeyId(id: string): Option<(string, int)> {
    if '_' !in id then None
    else
      var i := LastIndexOf(id, '_');
      match IntValue(id[i + 1..])
      case None => None
      case Some(n) => Some((id[..i], n))
  }

  lemma IntValueOfDecimal(n: int)
    ensures IntValue(Decimal(n)) == Some(n)
    ensures '_' !in Decimal(n)
  {
  }

  /** The user and the second can be read back from the id, whatever the user name contains. */
  lemma ParseOfKeyId(user: string, second: int)
    ensures ParseKeyId(KeyId(user, second)) == Some((user, second))
  {
    var id, number := KeyId(user, second), Decimal(second);
    IntValueOfDecimal(second);
    LastIndexOfSeparator(user, '_', number);
    assert id == user + ['_'] + number && id[|user|] == '_';
    assert id[..|user|] == user && id[|user| + 1..] == number;
  }

  /** Two certificates share a key id exactly when the user name and the second agree. */
  lemma KeyIdInjective(user1: string, second1: int, user2: string, second2: int)
    ensures KeyId(user1, second1) == KeyId(user2, second2) <==> user1 == user2 && second1 == second2
  {
    ParseOfKeyId(user1, second1);
    ParseOfKeyId(user2, second2);
  }
}
