/** The GTFS Realtime messages the merge engine reads, as plain values. An
    optional protobuf field is an Option (`HasField`); a scalar field that
    was never set reads as its default, as protobuf does. */
module Realtime {
  import opened Wrappers

  /** `TripDescriptor.ScheduleRelationship`; an unset field reads as SCHEDULED. */
  datatype ScheduleRelationship =
    | Scheduled | Added | Unscheduled | Canceled | Replacement | Duplicated | Deleted | New

  /** `StopTimeEvent`: a delay in seconds and an absolute POSIX time. */
  datatype StopTimeEvent = StopTimeEvent(delay: Option<int>, time: Option<int>)

  /** `TripUpdate.StopTimeUpdate`; an unset `stop_sequence` reads as 0. */
  datatype StopTimeUpdate = StopTimeUpdate(
    stopSequence: nat, stopId: string,
    arrival: Option<StopTimeEvent>, departure: Option<StopTimeEvent>)

  datatype TripDescriptor = TripDescriptor(tripId: string, routeId: string, scheduleRelationship: ScheduleRelationship)

  datatype TripUpdate = TripUpdate(trip: TripDescriptor, stopTimeUpdate: seq<StopTimeUpdate>)

  datatype FeedEntity = FeedEntity(id: string, tripUpdate: Option<TripUpdate>)

  /** The `FeedMessage` entities the fetch function returns. */
  type Feed = seq<FeedEntity>
}
