/**
  The identity of fw-util components whose headers fix part of their shape:
  a NIC component and the version key it reads, and a VR component with the
  device name its updates address.
 */
module FwComponent {

  /** `NIC_FW_VER_KEY`: the key a NIC's version is stored under unless the platform names another. */
  const NIC_FW_VER_KEY: string := "nic_fw_ver"
  /** IANA manufacturer ids of the two NIC vendors fw-util recognises. */
  const MLX_MFG_ID: int := 0x19810000
  const BCM_MFG_ID: int := 0x3d110000

  /** A NIC component: its FRU, its component name and the version key. */
  datatype NicComponent = NicComponent(fru: string, comp: string, verKey: string)

  /** `NicComponent(fru, comp)`: the version key defaults to `nic_fw_ver`. */
  function NewNic(fru: string, comp: string): (n: NicComponent)
    ensures n.fru == fru && n.comp == comp
    ensures n.verKey == NIC_FW_VER_KEY
  {
    NicComponent(fru, comp, NIC_FW_VER_KEY)
  }

  /** `NicComponent(fru, comp, ver_key_store)`: the given key replaces the default. */
  function NewNicWithKey(fru: string, comp: string, verKeyStore: string): (n: NicComponent)
    ensures n.fru == fru && n.comp == comp
    ensures n.verKey == verKeyStore
  {
    NicComponent(fru, comp, verKeyStore)
  }

  /** The two constructors agree exactly when the override is the default key. */
  lemma OverrideWithDefaultIsDefault(fru: string, comp: string, key: string)
    ensures NewNicWithKey(fru, comp, key) == NewNic(fru, comp) <==> key == NIC_FW_VER_KEY
  {
  }

  /** A VR component: its FRU, its component name and the regulator device it drives. */
  datatype VrComponent = VrComponent(fru: string, comp: string, devName: string)

  /** `VrComponent(fru, comp, name)`: the name given last becomes the device name. */
  function NewVr(fru: string, comp: string, name: string): (vr: VrComponent)
    ensures vr.fru == fru && vr.comp == comp && vr.devName == name
  {
    VrComponent(fru, comp, name)
  }

  /**
    A VR component is determined by its constructor arguments: two components
    are the same exactly when their FRU, component and device names agree.
   */
  lemma NewVrInjective(fru: string, comp: string, name: string, fru2: string, comp2: string, name2: string)
    ensures NewVr(fru, comp, name) == NewVr(fru2, comp2, name2) <==> fru == fru2 && comp == comp2 && name == name2
  {
  }
}
