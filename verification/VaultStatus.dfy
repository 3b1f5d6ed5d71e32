/** The status word of a vault (c_src/vault/vault_core.h:145-151). No modelled operation makes a
    vault DELETED; the catalog may say so. */
module VaultStatus {

  datatype Status = OK | LOCKED | ALERT | DELETED
}
