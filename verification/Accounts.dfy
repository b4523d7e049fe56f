/** What every resource shares: the account default and the reference to a secret. */
module Accounts {
  datatype Secret = Secret(name: string, namespace: string, keyName: string)

  const NO_SECRET := Secret("", "", "")

  /** Exactly one of a key and a complete reference to a secret. */
  predicate KeyConfigured(apiKey: string, secret: Secret) {
    && (apiKey != "" <==> secret == NO_SECRET)
    && (secret != NO_SECRET ==> secret.name != "" && secret.namespace != "" && secret.keyName != "")
  }

  /** An unset account takes the operator default, when there is one. */
  function DefaultAccount(accountId: int, operatorDefault: int): int {
    if accountId == 0 && operatorDefault > 0 then operatorDefault else accountId
  }

  /** The operator-level default account, set once at startup. */
  class AccountDefaults {
    var defaultAccountId: int

    constructor ()
      ensures defaultAccountId == 0
    {
      defaultAccountId := 0;
    }

    /** From now on resources that omit the account get this one, if it is positive, and an account that is given
        is never overwritten. */
    method SetDefaultAccountID(id: int)
      modifies this
      ensures defaultAccountId >= 0
      ensures forall a :: DefaultAccount(a, defaultAccountId) == if a == 0 && id > 0 then id else a
    {
      defaultAccountId := if id < 0 then 0 else id;
      assert forall a :: DefaultAccount(a, defaultAccountId) == if a == 0 && id > 0 then id else a;
    }
  }
}
