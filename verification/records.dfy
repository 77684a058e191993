/** The funeral-home record as the server stores it and the client receives
    it. Every column except the identifier may be NULL. */
module Records {

  import opened Optional

  /** One funeral home. The geographic coordinates are floating-point columns
      that no core operation reads, so they are not part of this model. */
  datatype FuneralHome = FuneralHome(
    internalId: int,
    clusterId: Option<int>,
    name: Option<string>,
    street: Option<string>,
    city: Option<string>,
    region: Option<string>,
    postalCode: Option<string>,
    country: Option<string>,
    phone: Option<string>,
    website: Option<string>,
    sources: Option<string>,
    sourceIds: Option<string>,
    clusterSize: Option<int>
  )
}
