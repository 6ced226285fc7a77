/** The key under which stores keep what belongs to an id of a tenant. */
module TenantKeys {
  import opened Texts

  function KeyOf(tenant: string, id: string): string {
    tenant + ":" + id
  }

  /** Two pairs share a key exactly when tenant and id are equal, or they split one text at different colons. */
  lemma SharedKeyExact(t: string, i: string, u: string, j: string)
    ensures KeyOf(t, i) == KeyOf(u, j) <==>
            (t == u && i == j) || SplitEarlier(t, i, u, j, ':') || SplitEarlier(u, j, t, i, ':')
    ensures ':' !in t && ':' !in u ==> (KeyOf(t, i) == KeyOf(u, j) <==> t == u && i == j)
  {
    hide SplitEarlier;
    JoinedExact(t, i, u, j, ':');
  }
}
