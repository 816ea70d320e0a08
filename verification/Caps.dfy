/** The compile-time size macros of defs.h as parameters: any values the static asserts allow. */
module Caps {
  datatype CapSet = CapSet(varbinds: nat, viewTable: nat, octets: nat, str: nat, oidData: nat,
                           children: nat, community: nat, slotSize: nat)

  predicate Allowed(c: CapSet) {
    // Varbinds are counted in an int.
    && 4 <= c.varbinds <= c.viewTable < 0x8000_0000
    && 64 <= c.octets
    && 17 <= c.oidData
    && 6 <= c.children
    // A slot holds the largest container: its buffer and at least its two header words.
    && c.str + 9 <= c.slotSize
    && c.octets + 8 <= c.slotSize
    && c.oidData + 9 <= c.slotSize
  }

  type Config = c: CapSet | Allowed(c) witness CapSet(8, 16, 256, 256, 33, 24, 32, 312)

  const CAPS: Config

  /** SNMP_MAX_VARBINDS */
  const VB: nat := CAPS.varbinds
  /** SNMP_ZC_MAX_VARBINDS */
  const VIEW_TABLE: nat := CAPS.viewTable
  /** OCTET_TYPE_MAX_LENGTH */
  const OCTETS: nat := CAPS.octets
  /** SNMP_MAX_STRING_LEN */
  const STR: nat := CAPS.str
  /** SNMP_MAX_OID_SUBIDENTIFIERS + 1, the size of OIDType::data */
  const OID_DATA: nat := CAPS.oidData
  /** SNMP_MAX_COMPLEX_CHILDREN */
  const CHILDREN: nat := CAPS.children
  /** SNMP_MAX_COMMUNITY_LEN */
  const COMMUNITY: nat := CAPS.community
  /** SNMP_POOL_SLOT_SIZE */
  const SLOT_SIZE: nat := CAPS.slotSize
}
