/** Hardware facts the scanner produces (src/facts.rs). */
module Facts {
  import opened Wrappers

  datatype CpuArchitecture = X86_64 | Aarch64 | Riscv64 | Unknown

  datatype CpuFeature =
    | Aes | Avx | Avx2 | Avx512bw | Avx512cd | Avx512dq | Avx512f | Avx512vl | Bmi1 | Bmi2
    | Crc32 | Fma | Fxsr | Lzcnt | Mmx | Neon | Pclmulqdq | Popcnt | Sha2 | Sse | Sse2 | Sse3
    | Sse41 | Sse42 | Ssse3 | Sve | Sve2

  /** Position in the declaration, which is the order the derived comparison uses. */
  function FeatureOrder(f: CpuFeature): nat {
    match f
    case Aes => 0 case Avx => 1 case Avx2 => 2 case Avx512bw => 3 case Avx512cd => 4
    case Avx512dq => 5 case Avx512f => 6 case Avx512vl => 7 case Bmi1 => 8 case Bmi2 => 9
    case Crc32 => 10 case Fma => 11 case Fxsr => 12 case Lzcnt => 13 case Mmx => 14
    case Neon => 15 case Pclmulqdq => 16 case Popcnt => 17 case Sha2 => 18 case Sse => 19
    case Sse2 => 20 case Sse3 => 21 case Sse41 => 22 case Sse42 => 23 case Ssse3 => 24
    case Sve => 25 case Sve2 => 26
  }

  predicate Supports(architecture: CpuArchitecture, feature: CpuFeature) {
    match architecture
    case X86_64 =>
      feature in {Aes, Avx, Avx2, Avx512bw, Avx512cd, Avx512dq, Avx512f, Avx512vl, Bmi1, Bmi2,
                  Fma, Fxsr, Lzcnt, Mmx, Pclmulqdq, Popcnt, Sse, Sse2, Sse3, Sse41, Sse42, Ssse3}
    case Aarch64 => feature in {Aes, Crc32, Neon, Sha2, Sve, Sve2}
    case Riscv64 => false
    case Unknown => false
  }

  datatype CpuFacts = CpuFacts(
    architecture: CpuArchitecture,
    vendor: string,
    family: Option<nat>,
    model: Option<nat>,
    stepping: Option<nat>,
    features: seq<CpuFeature>)

  datatype SystemFacts = SystemFacts(
    dmiVendor: string,
    dmiProduct: string,
    dmiProductVersion: string,
    dmiBoard: string,
    cpu: CpuFacts)

  datatype Bus =
    | Pci | Usb | I2c | Acpi | Platform | Spi | Serio | Hid | Auxiliary | Firewire | I3c | Mdio
    | Mei | Mhi | Mmc | Nvme | Rpmsg | Scsi | Sdio | Soundwire | Thunderbolt | Typec | Virtio
    | Vmbus | Sysfs

  datatype HardwareDevice = HardwareDevice(
    key: string,
    bus: Bus,
    name: string,
    modalias: string,
    vendor: Option<nat>,
    product: Option<nat>,
    subsystemVendor: Option<nat>,
    subsystemProduct: Option<nat>,
    deviceClass: Option<nat>,
    revision: Option<nat>,
    driver: Option<string>,
    properties: map<string, string>)

  datatype HardwareCapability =
    | Network | Wireless | Audio | Graphics | Storage | Input | Bluetooth | Firmware

  /** `HardwareCapability::ALL`, which is also the derived order. */
  const ALL_CAPABILITIES: seq<HardwareCapability> :=
    [Network, Wireless, Audio, Graphics, Storage, Input, Bluetooth, Firmware]

  function CapabilityOrder(c: HardwareCapability): (r: nat)
    ensures r < |ALL_CAPABILITIES| && ALL_CAPABILITIES[r] == c
  {
    match c
    case Network => 0
    case Wireless => 1
    case Audio => 2
    case Graphics => 3
    case Storage => 4
    case Input => 5
    case Bluetooth => 6
    case Firmware => 7
  }

  datatype CapabilityRequirement = CapabilityRequirement(
    capability: HardwareCapability,
    deviceKeys: seq<string>,
    modaliases: seq<string>,
    boundDrivers: seq<string>,
    unboundDeviceKeys: seq<string>)

  datatype DriverSourceKind = SignedHardware | SourceRecipes | KernelMetadata | FirmwareMetadata | FirmwareTree

  /** Position in the declaration, which is the order the derived comparison uses. */
  function KindOrder(kind: DriverSourceKind): nat {
    match kind
    case SignedHardware => 0
    case SourceRecipes => 1
    case KernelMetadata => 2
    case FirmwareMetadata => 3
    case FirmwareTree => 4
  }

  datatype DriverSourceEvidence = DriverSourceEvidence(
    kind: DriverSourceKind,
    path: string,
    kernelRelease: Option<string>,
    sha256: Option<string>)

  datatype Inventory = Inventory(
    system: SystemFacts,
    devices: seq<HardwareDevice>,
    driverSources: seq<DriverSourceEvidence>,
    capabilities: seq<CapabilityRequirement>)
}
