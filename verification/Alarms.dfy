/** The alarm states of the recorders, the memory trigger and the MP4 writer. */
module Alarms {

  datatype AlarmState = IDLE | PREALARM | ALARM | ALERT
}
