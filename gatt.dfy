/** Values of the GATT peripheral role as the BluetoothDemo app sees them: bytes, UUIDs,
    characteristics, services, centrals, ATT requests and the manager's error taxonomy.
    Platform objects compared by identity (services, characteristics, centrals) carry an
    opaque handle that stands for that identity. */
module Gatt {

  newtype Byte = x: int | 0 <= x < 256
  type Bytes = seq<Byte>

  datatype Option<+T> = None | Some(value: T) {
    function GetOr(default: T): T {
      match this
      case Some(v) => v
      case None => default
    }
  }

  /** A Bluetooth UUID, compared by its bytes (2 bytes for a 16-bit UUID, 16 for a 128-bit one). */
  datatype Uuid = Uuid(bytes: Bytes)

  /** The characteristic user-description descriptor, 0x2901. */
  const UserDescriptionUuid: Uuid := Uuid([0x29, 0x01])

  /** The flags of a characteristic's property option set. */
  datatype Property =
    | Broadcast | Read | WriteWithoutResponse | Write | Notify | Indicate
    | AuthenticatedSignedWrites | ExtendedProperties
    | NotifyEncryptionRequired | IndicateEncryptionRequired

  /** The flags of an attribute's permission option set. */
  datatype Permission = Readable | Writeable | ReadEncryptionRequired | WriteEncryptionRequired

  /** Identity of a characteristic object (the key of the manager's dictionaries). */
  datatype CharRef = CharRef(handle: nat)

  /** Identity of a remote central. */
  datatype CentralId = CentralId(handle: nat)

  /** A remote central and the largest notification payload it accepts. */
  datatype Central = Central(id: CentralId, maximumUpdateValueLength: nat)

  /** What a descriptor's untyped value holds: a string, or anything else (including nothing). */
  datatype DescriptorValue = Text(text: string) | NonText

  datatype Descriptor = Descriptor(uuid: Uuid, value: DescriptorValue)

  /** The parts only a mutable (locally published) characteristic has. The platform may report
      no subscriber list at all (None), which differs from an empty one. */
  datatype MutablePart = MutablePart(permissions: set<Permission>, subscribedCentrals: Option<seq<CentralId>>)

  /** A characteristic; `mutable` is None when the object is not a mutable characteristic,
      which is when a downcast to the mutable kind fails. `value` is the cached value. */
  datatype Characteristic = Characteristic(
    ref: CharRef,
    uuid: Uuid,
    properties: set<Property>,
    value: Option<Bytes>,
    descriptors: Option<seq<Descriptor>>,
    mutable: Option<MutablePart>)

  /** A service object: its identity handle, its UUID, its characteristics and the UUIDs of the
      services it includes (nothing else of an included service is ever consulted). */
  datatype Service = Service(
    handle: nat,
    uuid: Uuid,
    characteristics: Option<seq<Characteristic>>,
    includedServices: Option<seq<Uuid>>)

  /** The adapter's power state. */
  datatype PowerState = Unknown | Resetting | Unsupported | Unauthorized | PoweredOff | PoweredOn

  /** The manager's error taxonomy; the string is the human-readable reason. */
  datatype ManagerError =
    | InvalidManager
    | BluetoothNotAvailable
    | AddServiceError(reason: string)
    | RemoveServiceError(reason: string)
    | StartAdvertisingError(reason: string)
    | UpdateValueError(reason: string)

  /** The two ATT result codes the manager answers with. */
  datatype AttResult = Success | InvalidHandle

  /** A read or write request from a central against one characteristic. */
  datatype AttRequest = AttRequest(id: nat, characteristic: Characteristic, offset: nat, value: Option<Bytes>)

  // The reasons the manager reports.
  const ServiceExists := "Service exists."
  const CachedValueNotReadOnly := "Characteristics with cached values must be read-only"
  const PermissionPropertyMismatch := "Permission and Properties mismatch."
  const PropertyNotSupported := "Broadcast and extended properties are not supported for local peripheral service."
  const IncludedNotPublished := "Included Service must first be publish."
  const IncludedCannotBeRemoved := "Service in included in another service and cannot be removed."
  const NothingToAdvertise := "Please add service(s) to advertise."
  const DataTooLong := "Data is too long."
  const NotMutable := "Characteristic cannot be convert to mutable"
  const TransmitQueueFull := "Failed to update value. Transmit queue is full. Please try again later."
}
